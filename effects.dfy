/** What a run of the tool does to the outside world, as a trace of
    abstract events, and the environment that answers its remote calls.
    The remote calls themselves (S3's `ListBuckets`, `GetBucketRegion`, the
    batch delete of a bucket's objects, `DeleteBucket`,
    `WaitUntilBucketNotExists`) are opaque: each is an event that succeeds
    or fails as the environment says. */
module Effects {

  datatype Event =
    | ListBuckets                               // list every bucket of the account
    | Prompt                                    // the Yes/No confirmation is asked
    | LookupRegion(bucket: string)              // GetBucketRegion for one bucket
    | Empty(bucket: string, region: string)     // batch delete of every object, in that region
    | Delete(bucket: string, region: string)    // DeleteBucket, in that region
    | WaitGone(bucket: string, region: string)  // WaitUntilBucketNotExists; its result is dropped
    | WouldEmpty(bucket: string)                // dry-run report "would have emptied"
    | WouldDelete(bucket: string)               // dry-run report "would have deleted"
    | Exit(code: int)                           // the process ends with this status

  /** The answers of the outside world to one run. */
  datatype Env = Env(
    buckets: seq<string>,          // ListBuckets result, in provider order
    listFails: bool,               // ListBuckets returns an error
    answer: bool,                  // the prompt's selection is "Yes"
    regions: map<string, string>,  // GetBucketRegion; a missing bucket is a lookup error
    emptyFails: set<string>,       // buckets whose batch object delete returns an error
    deleteFails: set<string>,      // buckets whose DeleteBucket returns an error
    waitTimesOut: set<string>)     // buckets whose wait for absence times out

  /** The events that change the account. */
  predicate Mutates(e: Event) {
    e.Empty? || e.Delete?
  }

  predicate NoMutation(t: seq<Event>) {
    forall e :: e in t ==> !Mutates(e)
  }

  /** The failing remote calls, which end the run with status 1. */
  predicate Fails(e: Event, env: Env) {
    || (e.ListBuckets? && env.listFails)
    || (e.LookupRegion? && e.bucket !in env.regions)
    || (e.Empty? && e.bucket in env.emptyFails)
    || (e.Delete? && e.bucket in env.deleteFails)
  }

  /** The run ends with exactly one `Exit`, its last event. */
  predicate ExitsOnceAtEnd(t: seq<Event>) {
    && |t| > 0
    && t[|t| - 1].Exit?
    && forall k :: 0 <= k < |t| - 1 ==> !t[k].Exit?
  }

  /** A bucket is deleted only right after it was emptied in the same
      region, and an emptied bucket is deleted next in the same region
      unless emptying failed and the run ended. */
  predicate Paired(t: seq<Event>) {
    && (forall k :: 0 <= k < |t| && t[k].Delete? ==>
          0 < k && t[k - 1] == Empty(t[k].bucket, t[k].region))
    && (forall k :: 0 <= k < |t| && t[k].Empty? ==>
          k + 1 < |t| && (t[k + 1] == Delete(t[k].bucket, t[k].region) || t[k + 1] == Exit(1)))
  }

  /** Every failing call is followed at once by `Exit(1)`. */
  predicate FailuresEndRun(t: seq<Event>, env: Env) {
    forall k :: 0 <= k < |t| && Fails(t[k], env) ==> k + 1 < |t| && t[k + 1] == Exit(1)
  }

  /** `Exit(1)` comes only right after a failing call: no run stops with
      an error unless a remote call failed. */
  predicate ExitsOneOnlyOnFailure(t: seq<Event>, env: Env) {
    forall k :: 0 <= k < |t| && t[k] == Exit(1) ==> 0 < k && Fails(t[k - 1], env)
  }

  /** The buckets for which `DeleteBucket` was issued, in order. */
  function DeletedBuckets(t: seq<Event>): (bs: seq<string>)
    ensures |bs| <= |t|
  {
    if t == [] then []
    else (if t[0].Delete? then [t[0].bucket] else []) + DeletedBuckets(t[1..])
  }

  /** A bucket is listed as deleted iff the trace holds a `Delete` of it. */
  lemma {:induction false} DeletedBucketsIff(t: seq<Event>, b: string)
    ensures b in DeletedBuckets(t) <==> exists r :: Delete(b, r) in t
  {
    if t != [] {
      DeletedBucketsIff(t[1..], b);
      if b in DeletedBuckets(t[1..]) {
        var r :| Delete(b, r) in t[1..];
        assert Delete(b, r) in t;
      }
      if exists r :: Delete(b, r) in t {
        var r :| Delete(b, r) in t;
        if t[0] != Delete(b, r) {
          assert Delete(b, r) in t[1..];
        }
      }
    }
  }

  /** Only a trace's `Delete` events contribute. */
  lemma {:induction false} DeletedBucketsNone(t: seq<Event>)
    requires forall e :: e in t ==> !e.Delete?
    ensures DeletedBuckets(t) == []
  {
    if t != [] {
      assert forall e :: e in t[1..] ==> e in t;
      DeletedBucketsNone(t[1..]);
    }
  }

  lemma {:induction false} DeletedBucketsAppend(a: seq<Event>, b: seq<Event>)
    ensures DeletedBuckets(a + b) == DeletedBuckets(a) + DeletedBuckets(b)
  {
    if a != [] {
      assert (a + b)[1..] == a[1..] + b;
      DeletedBucketsAppend(a[1..], b);
    } else {
      assert a + b == b;
    }
  }

  /** A prefix without `Delete` events leaves the deleted buckets and the
      last event of what follows it unchanged. */
  lemma DeletedAfter(pre: seq<Event>, d: seq<Event>)
    requires forall e :: e in pre ==> !e.Delete?
    requires d != []
    ensures DeletedBuckets(pre + d) == DeletedBuckets(d)
    ensures (pre + d)[|pre + d| - 1] == d[|d| - 1]
  {
    DeletedBucketsAppend(pre, d);
    DeletedBucketsNone(pre);
  }

  /** A prefix that neither exits, changes the account nor fails keeps
      the shape of the run that follows it. */
  lemma WellFormedAfter(pre: seq<Event>, d: seq<Event>, env: Env)
    requires forall e :: e in pre ==> !e.Exit? && !Mutates(e) && !Fails(e, env)
    requires ExitsOnceAtEnd(d) && Paired(d) && FailuresEndRun(d, env) && ExitsOneOnlyOnFailure(d, env)
    ensures ExitsOnceAtEnd(pre + d) && Paired(pre + d) && FailuresEndRun(pre + d, env)
    ensures ExitsOneOnlyOnFailure(pre + d, env)
  {
    assert forall k :: 0 <= k < |pre| ==> pre[k] in pre;
    ExitsOnceAtEndAppend(pre, d);
    PairedAppend(pre, d);
    FailuresEndRunAppend(pre, d, env);
    ExitsOneOnlyOnFailureAppend(pre, d, env);
  }

  lemma ExitsOnceAtEndAppend(a: seq<Event>, b: seq<Event>)
    requires forall e :: e in a ==> !e.Exit?
    requires ExitsOnceAtEnd(b)
    ensures ExitsOnceAtEnd(a + b)
  {
    var t := a + b;
    forall k | 0 <= k < |t| - 1 ensures !t[k].Exit? {
      if k < |a| {
        assert t[k] == a[k] && a[k] in a;
      } else {
        assert t[k] == b[k - |a|];
      }
    }
  }

  lemma PairedAppend(a: seq<Event>, b: seq<Event>)
    requires Paired(a) && Paired(b)
    ensures Paired(a + b)
  {
    var t := a + b;
    forall k | 0 <= k < |t| && t[k].Delete?
      ensures 0 < k && t[k - 1] == Empty(t[k].bucket, t[k].region)
    {
      if k >= |a| {
        assert t[k] == b[k - |a|];
        assert k - |a| > 0;
        assert t[k - 1] == b[k - 1 - |a|];
      }
    }
    forall k | 0 <= k < |t| && t[k].Empty?
      ensures k + 1 < |t| && (t[k + 1] == Delete(t[k].bucket, t[k].region) || t[k + 1] == Exit(1))
    {
      if k < |a| {
        assert t[k] == a[k];
        assert t[k + 1] == a[k + 1];
      } else {
        assert t[k] == b[k - |a|];
      }
    }
  }

  lemma ExitsOneOnlyOnFailureAppend(a: seq<Event>, b: seq<Event>, env: Env)
    requires ExitsOneOnlyOnFailure(a, env) && ExitsOneOnlyOnFailure(b, env)
    ensures ExitsOneOnlyOnFailure(a + b, env)
  {
    var t := a + b;
    forall k | 0 <= k < |t| && t[k] == Exit(1) ensures 0 < k && Fails(t[k - 1], env) {
      if k < |a| {
        assert t[k] == a[k];
        assert t[k - 1] == a[k - 1];
      } else {
        assert t[k] == b[k - |a|];
        assert t[k - 1] == b[k - 1 - |a|];
      }
    }
  }

  lemma FailuresEndRunAppend(a: seq<Event>, b: seq<Event>, env: Env)
    requires FailuresEndRun(a, env) && FailuresEndRun(b, env)
    ensures FailuresEndRun(a + b, env)
  {
    var t := a + b;
    forall k | 0 <= k < |t| && Fails(t[k], env)
      ensures k + 1 < |t| && t[k + 1] == Exit(1)
    {
      if k < |a| {
        assert t[k] == a[k];
        assert t[k + 1] == a[k + 1];
      } else {
        assert t[k] == b[k - |a|];
        assert t[k + 1] == b[k + 1 - |a|];
      }
    }
  }
}
