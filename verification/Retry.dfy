/** Retrying failed tasks: duplicates are dropped, and the failed backup tasks of one cluster are
    merged into one. */
module Retry {
  import opened WalNames

  datatype BackupTask = BackupTask(cluster: string, sendToTier2: bool, policy: Option<string>)

  datatype WALTask = WALTask(cluster: string, walName: string)

  // -------------------------------------------------------------- merging

  /** One more candidate for a field that is kept while all candidates agree. */
  function MergePolicyField(current: Option<string>, conflict: bool, candidate: Option<string>)
    : (r: (Option<string>, bool))
  {
    if conflict || candidate.None? then (current, conflict)
    else if current.None? then (candidate, false)
    else if current != candidate then (None, true)
    else (current, false)
  }

  predicate Sets(tasks: seq<BackupTask>, policy: string) {
    exists t :: t in tasks && t.policy == Some(policy)
  }

  /** All tasks that set a policy set this one. */
  ghost predicate Agreed(tasks: seq<BackupTask>, policy: string) {
    Sets(tasks, policy) && forall t :: t in tasks ==> t.policy.None? || t.policy == Some(policy)
  }

  /** What the merged task has to be: it says nothing about the order of the tasks. */
  ghost predicate IsMerge(cluster: string, tasks: seq<BackupTask>, merged: BackupTask) {
    && merged.cluster == cluster
    && (merged.sendToTier2 <==> exists t :: t in tasks && t.sendToTier2)
    && (merged.policy.Some? ==> Agreed(tasks, merged.policy.value))
    && (merged.policy.None? ==> forall p :: !Agreed(tasks, p))
  }

  ghost predicate Merging(tasks: seq<BackupTask>, current: Option<string>, conflict: bool) {
    && (current.Some? ==> !conflict && Agreed(tasks, current.value))
    && (current.None? && !conflict ==> forall t :: t in tasks ==> t.policy.None?)
    && (conflict ==> exists p, q :: p != q && Sets(tasks, p) && Sets(tasks, q))
  }

  lemma {:induction false} MergeOneMore(tasks: seq<BackupTask>, current: Option<string>, conflict: bool, t: BackupTask)
    requires Merging(tasks, current, conflict)
    ensures var r := MergePolicyField(current, conflict, t.policy);
      Merging(tasks + [t], r.0, r.1)
  {
    var all := tasks + [t];
    var r := MergePolicyField(current, conflict, t.policy);
    assert forall x :: x in all <==> x in tasks || x == t;
    assert forall p :: Sets(tasks, p) ==> Sets(all, p);
    if t.policy.Some? { assert t in all; assert Sets(all, t.policy.value); }
    if r.1 && !conflict {
      assert Sets(all, current.value) && Sets(all, t.policy.value);
    }
  }

  method MergeBackupTasks(tasks: seq<BackupTask>) returns (merged: BackupTask)
    requires tasks != []
    ensures IsMerge(tasks[0].cluster, tasks, merged)
    ensures merged.sendToTier2 <==> exists t :: t in tasks && t.sendToTier2
    ensures forall p :: merged.policy == Some(p) <==>
      && (exists t :: t in tasks && t.policy == Some(p))
      && (forall t :: t in tasks ==> t.policy == None || t.policy == Some(p))
  {
    merged := BackupTask(tasks[0].cluster, false, None);
    var conflict := false;
    for i := 0 to |tasks|
      invariant merged.cluster == tasks[0].cluster
      invariant merged.sendToTier2 <==> exists t :: t in tasks[..i] && t.sendToTier2
      invariant Merging(tasks[..i], merged.policy, conflict)
    {
      assert tasks[..i + 1] == tasks[..i] + [tasks[i]];
      MergeOneMore(tasks[..i], merged.policy, conflict, tasks[i]);
      var (policy, c) := MergePolicyField(merged.policy, conflict, tasks[i].policy);
      merged := BackupTask(merged.cluster, merged.sendToTier2 || tasks[i].sendToTier2, policy);
      conflict := c;
    }
    assert tasks[..|tasks|] == tasks;
  }

  /** The merged task depends on which tasks failed, not on their order. */
  lemma {:induction false} MergeOrderIndependent(cluster: string, tasks: seq<BackupTask>, tasks': seq<BackupTask>,
                                                 merged: BackupTask, merged': BackupTask)
    requires IsMerge(cluster, tasks, merged) && IsMerge(cluster, tasks', merged')
    requires forall t :: t in tasks <==> t in tasks'
    ensures merged == merged'
  {
    forall p ensures Agreed(tasks, p) <==> Agreed(tasks', p) {
      assert Sets(tasks, p) <==> Sets(tasks', p);
    }
    if merged.policy.Some? && merged'.policy.Some? {
      var t :| t in tasks && t.policy == merged.policy;
    }
  }

  // ------------------------------------------------------------ enqueueing

  function OfCluster(tasks: seq<BackupTask>, cluster: string): (r: seq<BackupTask>)
    ensures forall t :: t in r <==> t in tasks && t.cluster == cluster
  {
    if tasks == [] then [] else
      var n := |tasks| - 1;
      var front := OfCluster(tasks[..n], cluster);
      assert tasks == tasks[..n] + [tasks[n]];
      if tasks[n].cluster == cluster then front + [tasks[n]] else front
  }

  /** The clusters in order of their first task, with their tasks. */
  ghost predicate Pending(tasks: seq<BackupTask>, clusters: seq<string>, pending: map<string, seq<BackupTask>>) {
    && (forall i, j :: 0 <= i < j < |clusters| ==> clusters[i] != clusters[j])
    && (forall c :: c in clusters <==> c in pending)
    && (forall t :: t in tasks ==> t.cluster in pending)
    && (forall c :: c in pending ==> pending[c] != [] && pending[c] == OfCluster(tasks, c))
  }

  lemma {:induction false} OfClusterAppend(tasks: seq<BackupTask>, t: BackupTask, c: string)
    ensures OfCluster(tasks + [t], c) == if t.cluster == c then OfCluster(tasks, c) + [t] else OfCluster(tasks, c)
  {
    assert (tasks + [t])[..|tasks|] == tasks;
  }

  lemma {:induction false} EntryOneMore(tasks: seq<BackupTask>, pending: map<string, seq<BackupTask>>, t: BackupTask,
                                        entry: seq<BackupTask>)
    requires forall x :: x in tasks ==> x.cluster in pending
    requires t.cluster in pending ==> pending[t.cluster] == OfCluster(tasks, t.cluster)
    requires entry == (if t.cluster in pending then pending[t.cluster] else []) + [t]
    ensures OfCluster(tasks + [t], t.cluster) == entry
  {
    OfClusterAppend(tasks, t, t.cluster);
    if t.cluster !in pending { NoneOfCluster(tasks, t.cluster); }
  }

  /** One more task, in a cluster that is new or not. */
  lemma {:induction false} PendingOneMore(tasks: seq<BackupTask>, clusters: seq<string>,
                                          pending: map<string, seq<BackupTask>>, t: BackupTask,
                                          more: seq<BackupTask>, clusters': seq<string>,
                                          pending': map<string, seq<BackupTask>>)
    requires Pending(tasks, clusters, pending) && more == tasks + [t]
    requires clusters' == if t.cluster in pending then clusters else clusters + [t.cluster]
    requires pending' == pending[t.cluster := (if t.cluster in pending then pending[t.cluster] else []) + [t]]
    ensures Pending(more, clusters', pending')
  {
    EntryOneMore(tasks, pending, t, pending'[t.cluster]);
    ClustersOneMore(clusters, pending.Keys, t.cluster, clusters');
    forall c | c in pending' ensures pending'[c] != [] && pending'[c] == OfCluster(more, c) {
      if c != t.cluster { OfClusterAppend(tasks, t, c); }
    }
    forall x | x in more ensures x.cluster in pending' { assert x in tasks || x == t; }
  }

  lemma {:induction false} ClustersOneMore(clusters: seq<string>, keys: set<string>, c: string, clusters': seq<string>)
    requires forall i, j :: 0 <= i < j < |clusters| ==> clusters[i] != clusters[j]
    requires forall x :: x in clusters <==> x in keys
    requires clusters' == if c in keys then clusters else clusters + [c]
    ensures forall i, j :: 0 <= i < j < |clusters'| ==> clusters'[i] != clusters'[j]
    ensures forall x :: x in clusters' <==> x in keys + {c}
  {
    if c !in keys { assert c !in clusters; }
  }

  method GroupByCluster(tasks: seq<BackupTask>) returns (clusters: seq<string>, pending: map<string, seq<BackupTask>>)
    ensures Pending(tasks, clusters, pending)
  {
    clusters, pending := [], map[];
    for i := 0 to |tasks|
      invariant Pending(tasks[..i], clusters, pending)
    {
      var t := tasks[i];
      assert tasks[..i + 1] == tasks[..i] + [t];
      ghost var clustersBefore, pendingBefore := clusters, pending;
      if t.cluster !in pending {
        clusters := clusters + [t.cluster];
        pending := pending[t.cluster := []];
      }
      pending := pending[t.cluster := pending[t.cluster] + [t]];
      PendingOneMore(tasks[..i], clustersBefore, pendingBefore, t, tasks[..i + 1], clusters, pending);
    }
    assert tasks[..|tasks|] == tasks;
  }

  lemma {:induction false} NoneOfCluster(tasks: seq<BackupTask>, c: string)
    requires forall t :: t in tasks ==> t.cluster != c
    ensures OfCluster(tasks, c) == []
  {
    if OfCluster(tasks, c) != [] { assert OfCluster(tasks, c)[0] in OfCluster(tasks, c); }
  }

  /** What retrying has published: at most one task per cluster, each the merge of all the failed
      tasks of its cluster. */
  ghost predicate Merged(tasks: seq<BackupTask>, published: seq<BackupTask>) {
    && (forall i, j :: 0 <= i < j < |published| ==> published[i].cluster != published[j].cluster)
    && (forall p :: p in published ==>
          OfCluster(tasks, p.cluster) != [] && IsMerge(p.cluster, OfCluster(tasks, p.cluster), p))
  }

  /** `enqueueBackupTasks`, with a queue that takes `accepted` messages and then fails. Without a
      failure every cluster with a failed task gets its one task. */
  method EnqueueBackupTasks(tasks: seq<BackupTask>, accepted: nat) returns (ok: bool, published: seq<BackupTask>)
    ensures Merged(tasks, published)
    ensures ok ==> forall t :: t in tasks ==> exists p :: p in published && p.cluster == t.cluster
    ensures !ok ==> |published| == accepted
    ensures forall i, j :: 0 <= i < j < |published| ==> published[i].cluster != published[j].cluster
    ensures forall p :: p in published ==> exists t :: t in tasks && t.cluster == p.cluster
    ensures forall p :: p in published ==>
      (p.sendToTier2 <==> exists t :: t in tasks && t.cluster == p.cluster && t.sendToTier2)
    ensures forall p, v :: p in published ==> (p.policy == Some(v) <==>
      && (exists t :: t in tasks && t.cluster == p.cluster && t.policy == Some(v))
      && (forall t :: t in tasks && t.cluster == p.cluster ==> t.policy == None || t.policy == Some(v)))
  {
    ok, published := PublishMerged(tasks, accepted);
    MergedMeans(tasks, published);
  }

  method PublishMerged(tasks: seq<BackupTask>, accepted: nat) returns (ok: bool, published: seq<BackupTask>)
    ensures Merged(tasks, published)
    ensures ok ==> forall t :: t in tasks ==> exists p :: p in published && p.cluster == t.cluster
    ensures !ok ==> |published| == accepted
  {
    var clusters, pending := GroupByCluster(tasks);
    published := [];
    for i := 0 to |clusters|
      invariant |published| == i <= accepted && Merged(tasks, published)
      invariant forall k :: 0 <= k < i ==> published[k].cluster == clusters[k]
    {
      var c := clusters[i];
      var merged := MergeOf(tasks, c, pending[c]);
      if |published| >= accepted {
        return false, published;
      }
      MergedOneMore(tasks, published, merged);
      published := published + [merged];
    }
    forall t | t in tasks ensures exists p :: p in published && p.cluster == t.cluster {
      var k :| 0 <= k < |clusters| && clusters[k] == t.cluster;
      assert published[k] in published;
    }
    ok := true;
  }

  /** What a merged task says of the failed tasks of its cluster. */
  lemma {:induction false} MergeMeans(tasks: seq<BackupTask>, p: BackupTask, v: string)
    requires OfCluster(tasks, p.cluster) != [] && IsMerge(p.cluster, OfCluster(tasks, p.cluster), p)
    ensures exists t :: t in tasks && t.cluster == p.cluster
    ensures p.sendToTier2 <==> exists t :: t in tasks && t.cluster == p.cluster && t.sendToTier2
    ensures p.policy == Some(v) <==>
      && (exists t :: t in tasks && t.cluster == p.cluster && t.policy == Some(v))
      && (forall t :: t in tasks && t.cluster == p.cluster ==> t.policy == None || t.policy == Some(v))
  {
    var ofCluster := OfCluster(tasks, p.cluster);
    assert ofCluster[0] in ofCluster;
    assert Agreed(ofCluster, v) <==>
      && (exists t :: t in tasks && t.cluster == p.cluster && t.policy == Some(v))
      && (forall t :: t in tasks && t.cluster == p.cluster ==> t.policy == None || t.policy == Some(v));
    if p.policy.Some? && p.policy.value != v { assert Agreed(ofCluster, p.policy.value); }
  }

  lemma {:induction false} MergedMeans(tasks: seq<BackupTask>, published: seq<BackupTask>)
    requires Merged(tasks, published)
    ensures forall i, j :: 0 <= i < j < |published| ==> published[i].cluster != published[j].cluster
    ensures forall p :: p in published ==> exists t :: t in tasks && t.cluster == p.cluster
    ensures forall p :: p in published ==>
      (p.sendToTier2 <==> exists t :: t in tasks && t.cluster == p.cluster && t.sendToTier2)
    ensures forall p, v :: p in published ==> (p.policy == Some(v) <==>
      && (exists t :: t in tasks && t.cluster == p.cluster && t.policy == Some(v))
      && (forall t :: t in tasks && t.cluster == p.cluster ==> t.policy == None || t.policy == Some(v)))
  {
    forall p | p in published
      ensures (exists t :: t in tasks && t.cluster == p.cluster)
      ensures p.sendToTier2 <==> exists t :: t in tasks && t.cluster == p.cluster && t.sendToTier2
    {
      MergeMeans(tasks, p, "");
    }
    forall p, v | p in published
      ensures p.policy == Some(v) <==>
        && (exists t :: t in tasks && t.cluster == p.cluster && t.policy == Some(v))
        && (forall t :: t in tasks && t.cluster == p.cluster ==> t.policy == None || t.policy == Some(v))
    {
      MergeMeans(tasks, p, v);
    }
  }

  method MergeOf(tasks: seq<BackupTask>, c: string, pending: seq<BackupTask>) returns (merged: BackupTask)
    requires pending == OfCluster(tasks, c) && pending != []
    ensures merged.cluster == c && IsMerge(c, OfCluster(tasks, c), merged)
  {
    assert pending[0] in OfCluster(tasks, c);
    merged := MergeBackupTasks(pending);
  }

  lemma {:induction false} MergedOneMore(tasks: seq<BackupTask>, published: seq<BackupTask>, p: BackupTask)
    requires Merged(tasks, published) && OfCluster(tasks, p.cluster) != []
    requires IsMerge(p.cluster, OfCluster(tasks, p.cluster), p)
    requires forall k :: 0 <= k < |published| ==> published[k].cluster != p.cluster
    ensures Merged(tasks, published + [p])
  {
    forall q | q in published + [p]
      ensures OfCluster(tasks, q.cluster) != [] && IsMerge(q.cluster, OfCluster(tasks, q.cluster), q)
    {
      assert q in published || q == p;
    }
  }

  /** A complete retry publishes the same tasks whatever the order of the failed ones. */
  lemma {:induction false} RetryOrderIndependent(tasks: seq<BackupTask>, tasks': seq<BackupTask>,
                                                 published: seq<BackupTask>, published': seq<BackupTask>, p: BackupTask)
    requires Merged(tasks, published) && Merged(tasks', published')
    requires forall t :: t in tasks <==> t in tasks'
    requires forall t :: t in tasks' ==> exists q :: q in published' && q.cluster == t.cluster
    requires p in published
    ensures p in published'
  {
    var t := OfCluster(tasks, p.cluster)[0];
    assert t in OfCluster(tasks, p.cluster);
    var q :| q in published' && q.cluster == t.cluster;
    MergeOrderIndependent(p.cluster, OfCluster(tasks, p.cluster), OfCluster(tasks', p.cluster), p, q);
  }

  /** `enqueueWALTasks`: every distinct failed task once, in order, up to a failure of the queue. */
  method EnqueueWALTasks(tasks: seq<WALTask>, accepted: nat) returns (ok: bool, published: seq<WALTask>)
    ensures forall i, j :: 0 <= i < j < |published| ==> published[i] != published[j]
    ensures forall t :: t in published ==> t in tasks
    ensures ok ==> forall t :: t in tasks ==> t in published
    ensures !ok ==> |published| == accepted
  {
    var attempted: set<WALTask> := {};
    published := [];
    for i := 0 to |tasks|
      invariant forall t :: t in attempted <==> t in published
      invariant forall i, j :: 0 <= i < j < |published| ==> published[i] != published[j]
      invariant forall t :: t in published ==> t in tasks
      invariant forall t :: t in tasks[..i] ==> t in published
      invariant |published| <= accepted
    {
      assert tasks[..i + 1] == tasks[..i] + [tasks[i]];
      if tasks[i] in attempted { continue; }
      if |published| >= accepted {
        return false, published;
      }
      published := published + [tasks[i]];
      attempted := attempted + {tasks[i]};
    }
    assert tasks[..|tasks|] == tasks;
    ok := true;
  }
}
