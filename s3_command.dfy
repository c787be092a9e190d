/** The `awsrm s3 <term>` sub-command: list the buckets, keep those the
    term matches, ask for confirmation unless quiet, then for each bucket
    look up its region, rebind the session to it, and either empty and
    delete the bucket or, in dry-run mode, report what would happen and
    stop after that first bucket. */
module S3Command {
  import opened Matcher
  import opened Effects

  /** The command's argument and persistent flags. `--verbose` changes only
      what is printed and `--safe` is read by nothing, so neither is here. */
  datatype Settings = Settings(term: string, region: string, quiet: bool, dryRun: bool)

  /** The per-bucket loop over the confirmed buckets `bs`. */
  function Destroy(bs: seq<string>, dryRun: bool, env: Env): seq<Event>
    decreases |bs|
  {
    if bs == [] then [Exit(0)]
    else
      var b := bs[0];
      if b !in env.regions then [LookupRegion(b), Exit(1)]
      else
        var r := env.regions[b];
        if dryRun then [LookupRegion(b), WouldEmpty(b), WouldDelete(b), Exit(0)]
        else if b in env.emptyFails then [LookupRegion(b), Empty(b, r), Exit(1)]
        else if b in env.deleteFails then [LookupRegion(b), Empty(b, r), Delete(b, r), Exit(1)]
        else [LookupRegion(b), Empty(b, r), Delete(b, r), WaitGone(b, r)] + Destroy(bs[1..], dryRun, env)
  }

  /** Everything one run of the sub-command does, in order. */
  function S3Trace(s: Settings, env: Env): seq<Event>
  {
    if env.listFails then [ListBuckets, Exit(1)]
    else AfterListing(s, env, MatchingNames(env.buckets, s.term))
  }

  /** The run once the listing succeeded and the matcher kept `found`. */
  function AfterListing(s: Settings, env: Env, found: seq<string>): seq<Event>
  {
    if found == [] then [ListBuckets, Exit(0)]
    else if s.quiet then [ListBuckets] + Destroy(found, s.dryRun, env)
    else if !env.answer then [ListBuckets, Prompt, Exit(0)]
    else [ListBuckets, Prompt] + Destroy(found, s.dryRun, env)
  }

  /** The command's `Run`: each remote call appends its event; a fatal error
      or `os.Exit` appends `Exit` and ends the run. */
  method Run(s: Settings, env: Env) returns (trace: seq<Event>)
    ensures trace == S3Trace(s, env)
  {
    trace := [ListBuckets];
    if env.listFails {
      trace := trace + [Exit(1)];
      return;
    }
    var found := MatchBuckets(env.buckets, s.term);
    if |found| == 0 {
      trace := trace + [Exit(0)];
      return;
    }
    assert found != [];
    if !s.quiet {
      trace := trace + [Prompt];
      if !env.answer {
        trace := trace + [Exit(0)];
        return;
      }
    }
    ghost var gate := trace;
    assert S3Trace(s, env) == gate + Destroy(found, s.dryRun, env);
    var rest := DestroyAll(found, s, env);
    trace := trace + rest;
  }

  /** The loop over the confirmed buckets. `session` is the region the
      current S3 client talks to; it is rebound to each bucket's own region
      before that bucket is touched. */
  method DestroyAll(found: seq<string>, s: Settings, env: Env) returns (trace: seq<Event>)
    ensures trace == Destroy(found, s.dryRun, env)
  {
    ghost var whole := Destroy(found, s.dryRun, env);
    var session := s.region;
    trace := [];
    for i := 0 to |found|
      invariant trace + Destroy(found[i..], s.dryRun, env) == whole
    {
      ghost var rest := Destroy(found[i..], s.dryRun, env);
      ghost var next := Destroy(found[i + 1..], s.dryRun, env);
      assert found[i..][1..] == found[i + 1..];
      var events, stop;
      events, stop, session := DestroyFirst(found[i..], session, s, env);
      assert rest == if stop then events else events + next;
      ghost var before := trace;
      trace := trace + events;
      if stop {
        return;
      }
      assert before + (events + next) == trace + next;
    }
    assert found[|found|..] == [];
    trace := trace + [Exit(0)];
  }

  /** One pass of the loop body, for the first bucket of `bs`: look up its
      region and rebind the session to it, then empty and delete the bucket
      or, in dry-run, report both and exit; `stop` when the process exits. */
  method DestroyFirst(bs: seq<string>, session: string, s: Settings, env: Env)
    returns (events: seq<Event>, stop: bool, rebound: string)
    requires bs != []
    ensures Destroy(bs, s.dryRun, env)
         == if stop then events else events + Destroy(bs[1..], s.dryRun, env)
    ensures rebound == if bs[0] in env.regions then env.regions[bs[0]] else session
  {
    var b := bs[0];
    rebound := session;
    events := [LookupRegion(b)];
    stop := true;
    if b !in env.regions {
      events := events + [Exit(1)];
      return;
    }
    rebound := env.regions[b];
    if s.dryRun {
      events := events + [WouldEmpty(b), WouldDelete(b), Exit(0)];
      return;
    }
    events := events + [Empty(b, rebound)];
    if b in env.emptyFails {
      events := events + [Exit(1)];
      return;
    }
    events := events + [Delete(b, rebound)];
    if b in env.deleteFails {
      events := events + [Exit(1)];
      return;
    }
    events := events + [WaitGone(b, rebound)];
    stop := false;
  }

  // ---------------------------------------------------------------------
  // The per-bucket loop

  /** The loop ends with one `Exit`, pairs every `Empty` with its `Delete`,
      and stops at the first failing call. */
  lemma DestroyWellFormed(bs: seq<string>, dryRun: bool, env: Env)
    ensures var t := Destroy(bs, dryRun, env);
      ExitsOnceAtEnd(t) && Paired(t) && FailuresEndRun(t, env) && ExitsOneOnlyOnFailure(t, env)
  {
    DestroyExitsOnce(bs, dryRun, env);
    DestroyPaired(bs, dryRun, env);
    DestroyFailuresEndRun(bs, dryRun, env);
    DestroyExitsOneOnlyOnFailure(bs, dryRun, env);
  }

  lemma {:induction false} DestroyExitsOneOnlyOnFailure(bs: seq<string>, dryRun: bool, env: Env)
    ensures ExitsOneOnlyOnFailure(Destroy(bs, dryRun, env), env)
  {
    if bs != [] {
      var b := bs[0];
      if b in env.regions && !dryRun && b !in env.emptyFails && b !in env.deleteFails {
        var r := env.regions[b];
        DestroyExitsOneOnlyOnFailure(bs[1..], dryRun, env);
        ExitsOneOnlyOnFailureAppend([LookupRegion(b), Empty(b, r), Delete(b, r), WaitGone(b, r)], Destroy(bs[1..], dryRun, env), env);
      }
    }
  }

  lemma {:induction false} DestroyExitsOnce(bs: seq<string>, dryRun: bool, env: Env)
    ensures ExitsOnceAtEnd(Destroy(bs, dryRun, env))
  {
    if bs != [] {
      var b := bs[0];
      if b in env.regions && !dryRun && b !in env.emptyFails && b !in env.deleteFails {
        var r := env.regions[b];
        DestroyExitsOnce(bs[1..], dryRun, env);
        ExitsOnceAtEndAppend([LookupRegion(b), Empty(b, r), Delete(b, r), WaitGone(b, r)], Destroy(bs[1..], dryRun, env));
      }
    }
  }

  lemma {:induction false} DestroyPaired(bs: seq<string>, dryRun: bool, env: Env)
    ensures Paired(Destroy(bs, dryRun, env))
  {
    if bs != [] {
      var b := bs[0];
      if b in env.regions && !dryRun && b !in env.emptyFails && b !in env.deleteFails {
        var r := env.regions[b];
        DestroyPaired(bs[1..], dryRun, env);
        PairedAppend([LookupRegion(b), Empty(b, r), Delete(b, r), WaitGone(b, r)], Destroy(bs[1..], dryRun, env));
      }
    }
  }

  lemma {:induction false} DestroyFailuresEndRun(bs: seq<string>, dryRun: bool, env: Env)
    ensures FailuresEndRun(Destroy(bs, dryRun, env), env)
  {
    if bs != [] {
      var b := bs[0];
      if b in env.regions && !dryRun && b !in env.emptyFails && b !in env.deleteFails {
        var r := env.regions[b];
        DestroyFailuresEndRun(bs[1..], dryRun, env);
        FailuresEndRunAppend([LookupRegion(b), Empty(b, r), Delete(b, r), WaitGone(b, r)], Destroy(bs[1..], dryRun, env), env);
      }
    }
  }

  /** Only buckets of `bs` are emptied or deleted, never in dry-run, and
      always against the region looked up for that bucket. */
  lemma {:induction false} DestroyEffects(bs: seq<string>, dryRun: bool, env: Env)
    ensures forall e :: e in Destroy(bs, dryRun, env) && Mutates(e) ==>
      && !dryRun
      && e.bucket in bs
      && e.bucket in env.regions
      && e.region == env.regions[e.bucket]
    ensures Prompt !in Destroy(bs, dryRun, env)
  {
    if bs != [] {
      DestroyEffects(bs[1..], dryRun, env);
    }
  }

  /** Buckets are deleted in the order they were matched: the deleted ones
      form a prefix of `bs`, and all of `bs` when no call fails. */
  lemma {:induction false} DestroyOrder(bs: seq<string>, dryRun: bool, env: Env)
    ensures DeletedBuckets(Destroy(bs, dryRun, env)) <= bs
    ensures !dryRun && (forall b :: b in bs ==> b in env.regions && b !in env.emptyFails && b !in env.deleteFails)
      ==> DeletedBuckets(Destroy(bs, dryRun, env)) == bs && Destroy(bs, dryRun, env)[|Destroy(bs, dryRun, env)| - 1] == Exit(0)
  {
    if bs != [] {
      var b := bs[0];
      if b in env.regions && !dryRun && b !in env.emptyFails && b !in env.deleteFails {
        var r := env.regions[b];
        var block := [LookupRegion(b), Empty(b, r), Delete(b, r), WaitGone(b, r)];
        DestroyOrder(bs[1..], dryRun, env);
        DeletedBucketsAppend(block, Destroy(bs[1..], dryRun, env));
        DeletedOfBlock(b, r, WaitGone(b, r));
        assert bs == [b] + bs[1..];
      } else if b in env.regions && !dryRun && b !in env.emptyFails {
        var r := env.regions[b];
        DeletedOfBlock(b, r, Exit(1));
        assert [b] <= bs;
      } else {
        DeletedBucketsNone(Destroy(bs, dryRun, env));
      }
    }
  }

  lemma DeletedOfBlock(b: string, r: string, last: Event)
    requires !last.Delete?
    ensures DeletedBuckets([LookupRegion(b), Empty(b, r), Delete(b, r), last]) == [b]
  {
    DeletedBucketsAppend([LookupRegion(b), Empty(b, r)], [Delete(b, r), last]);
    DeletedBucketsNone([LookupRegion(b), Empty(b, r)]);
    assert [Delete(b, r), last][1..] == [last];
    DeletedBucketsNone([last]);
    assert [LookupRegion(b), Empty(b, r)] + [Delete(b, r), last] == [LookupRegion(b), Empty(b, r), Delete(b, r), last];
  }

  /** Whether a wait for absence times out never changes the run: the
      waiter's result is discarded. */
  lemma {:induction false} DestroyIgnoresWait(bs: seq<string>, dryRun: bool, env: Env, w: set<string>)
    ensures Destroy(bs, dryRun, env) == Destroy(bs, dryRun, env.(waitTimesOut := w))
  {
    if bs != [] {
      DestroyIgnoresWait(bs[1..], dryRun, env, w);
    }
  }

  // ---------------------------------------------------------------------
  // Whole runs

  /** Every run lists the buckets first, ends with exactly one `Exit`, pairs
      every `Empty` with its `Delete`, stops at the first failing call, and
      exits with status 1 only right after a failing call. */
  lemma WellFormed(s: Settings, env: Env)
    ensures var t := S3Trace(s, env);
      && t[0] == ListBuckets && ExitsOnceAtEnd(t) && Paired(t) && FailuresEndRun(t, env)
      && ExitsOneOnlyOnFailure(t, env)
  {
    var found := MatchingNames(env.buckets, s.term);
    if !env.listFails && found != [] && (s.quiet || env.answer) {
      var pre := if s.quiet then [ListBuckets] else [ListBuckets, Prompt];
      DestroyWellFormed(found, s.dryRun, env);
      WellFormedAfter(pre, Destroy(found, s.dryRun, env), env);
    }
  }

  /** With no matching bucket the run ends cleanly, before any prompt and
      any change. */
  lemma NoMatchExitsCleanly(s: Settings, env: Env)
    requires !env.listFails && MatchingNames(env.buckets, s.term) == []
    ensures S3Trace(s, env) == [ListBuckets, Exit(0)]
  {
  }

  /** The prompt is shown iff quiet mode is off and some bucket matched:
      quiet mode never prompts. */
  lemma PromptIff(s: Settings, env: Env)
    ensures Prompt in S3Trace(s, env)
        <==> !s.quiet && !env.listFails && MatchingNames(env.buckets, s.term) != []
  {
    DestroyEffects(MatchingNames(env.buckets, s.term), s.dryRun, env);
  }

  /** Answering "No" ends the run with status 0 and changes nothing. */
  lemma DeclineChangesNothing(s: Settings, env: Env)
    requires !s.quiet && !env.answer && !env.listFails
    ensures NoMutation(S3Trace(s, env))
    ensures S3Trace(s, env)[|S3Trace(s, env)| - 1] == Exit(0)
  {
  }

  /** A bucket is emptied or deleted only if it matched, the run was
      approved (by quiet mode or a "Yes"), dry-run is off, and then only in
      the region looked up for that bucket, whatever `--region` says. */
  lemma OnlyApprovedMatchesChange(s: Settings, env: Env)
    ensures forall e :: e in S3Trace(s, env) && Mutates(e) ==>
      && e.bucket in env.buckets
      && Matches(e.bucket, s.term)
      && (s.quiet || env.answer)
      && !s.dryRun
      && e.bucket in env.regions
      && e.region == env.regions[e.bucket]
  {
    var found := MatchingNames(env.buckets, s.term);
    DestroyEffects(found, s.dryRun, env);
    forall e | e in S3Trace(s, env) && Mutates(e)
      ensures e.bucket in env.buckets && Matches(e.bucket, s.term)
    {
      MatchedIff(env.buckets, s.term, e.bucket);
    }
  }

  /** Dry-run never empties or deletes; it reports the first matched bucket
      only and then exits with status 0 (or 1 if its region lookup
      failed). */
  lemma DryRunStopsAfterFirst(s: Settings, env: Env)
    requires s.dryRun
    ensures NoMutation(S3Trace(s, env))
    ensures var found := MatchingNames(env.buckets, s.term);
      !env.listFails && found != [] && (s.quiet || env.answer) ==>
        && (forall e :: e in S3Trace(s, env) && (e.WouldEmpty? || e.WouldDelete?) ==> e.bucket == found[0])
        && (found[0] in env.regions ==>
              S3Trace(s, env)[|S3Trace(s, env)| - 4..]
              == [LookupRegion(found[0]), WouldEmpty(found[0]), WouldDelete(found[0]), Exit(0)])
  {
    OnlyApprovedMatchesChange(s, env);
  }

  /** Buckets are deleted in match order; when no call fails, every matched
      bucket is deleted and the run exits with status 0, whether or not the
      waits for absence time out. */
  lemma DeletesInMatchOrder(s: Settings, env: Env)
    ensures DeletedBuckets(S3Trace(s, env)) <= MatchingNames(env.buckets, s.term)
    ensures var found := MatchingNames(env.buckets, s.term);
      && !env.listFails && (s.quiet || env.answer) && !s.dryRun
      && (forall b :: b in found ==> b in env.regions && b !in env.emptyFails && b !in env.deleteFails)
      ==> DeletedBuckets(S3Trace(s, env)) == found && S3Trace(s, env)[|S3Trace(s, env)| - 1] == Exit(0)
  {
    if env.listFails {
      DeletedBucketsNone(S3Trace(s, env));
    } else {
      DeletesInOrderAfterListing(s, env, MatchingNames(env.buckets, s.term));
    }
  }

  lemma DeletesInOrderAfterListing(s: Settings, env: Env, found: seq<string>)
    ensures DeletedBuckets(AfterListing(s, env, found)) <= found
    ensures && (s.quiet || env.answer) && !s.dryRun
      && (forall b :: b in found ==> b in env.regions && b !in env.emptyFails && b !in env.deleteFails)
      ==> DeletedBuckets(AfterListing(s, env, found)) == found
          && AfterListing(s, env, found)[|AfterListing(s, env, found)| - 1] == Exit(0)
  {
    if found == [] || !(s.quiet || env.answer) {
      DeletedBucketsNone(AfterListing(s, env, found));
    } else {
      var pre := if s.quiet then [ListBuckets] else [ListBuckets, Prompt];
      DestroyOrder(found, s.dryRun, env);
      DeletedAfter(pre, Destroy(found, s.dryRun, env));
    }
  }

  /** The sub-command has no guard on the term: with the empty term, quiet
      mode and no failing call, every bucket of the account is deleted. */
  lemma EmptyTermDeletesEverything(s: Settings, env: Env)
    requires s.term == "" && s.quiet && !s.dryRun && !env.listFails
    requires forall b :: b in env.buckets ==> b in env.regions && b !in env.emptyFails && b !in env.deleteFails
    ensures DeletedBuckets(S3Trace(s, env)) == env.buckets
  {
    EmptyTermMatchesAll(env.buckets);
    DeletesInMatchOrder(s, env);
  }

  /** A run does not depend on whether waits for absence time out. */
  lemma IgnoresWaitTimeouts(s: Settings, env: Env, w: set<string>)
    ensures S3Trace(s, env) == S3Trace(s, env.(waitTimesOut := w))
  {
    DestroyIgnoresWait(MatchingNames(env.buckets, s.term), s.dryRun, env, w);
  }
}
