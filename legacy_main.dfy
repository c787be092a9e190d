/** The older stand-alone program (`main.go`): the same matcher, but the
    term is a required `--buckets` flag, the prompt is always shown, every
    bucket is emptied and deleted through the one session opened for
    `--region`, and dry-run reports every matched bucket. */
module LegacyMain {
  import opened Matcher
  import opened Effects

  /** The program's flags that steer the run; `--profile` only selects
      credentials and `--verbose` only adds output. */
  datatype Flags = Flags(term: string, region: string, dryRun: bool)

  /** The loop over the confirmed buckets, all against `region`. */
  function Destroy(bs: seq<string>, region: string, dryRun: bool, env: Env): seq<Event>
    decreases |bs|
  {
    if bs == [] then [Exit(0)]
    else
      var b := bs[0];
      if dryRun then [WouldEmpty(b), WouldDelete(b)] + Destroy(bs[1..], region, dryRun, env)
      else if b in env.emptyFails then [Empty(b, region), Exit(1)]
      else if b in env.deleteFails then [Empty(b, region), Delete(b, region), Exit(1)]
      else [Empty(b, region), Delete(b, region), WaitGone(b, region)] + Destroy(bs[1..], region, dryRun, env)
  }

  /** Everything one run of the program does, in order. */
  function MainTrace(f: Flags, env: Env): seq<Event>
  {
    if |f.term| == 0 then [Exit(1)]
    else if env.listFails then [ListBuckets, Exit(1)]
    else AfterListing(f, env, MatchingNames(env.buckets, f.term))
  }

  /** The run once the listing succeeded and the matcher kept `found`. */
  function AfterListing(f: Flags, env: Env, found: seq<string>): seq<Event>
  {
    if found == [] then [ListBuckets, Exit(0)]
    else if !env.answer then [ListBuckets, Prompt, Exit(0)]
    else [ListBuckets, Prompt] + Destroy(found, f.region, f.dryRun, env)
  }

  /** The dry-run reports for `bs`, both lines per bucket, in order. */
  function DryRunReports(bs: seq<string>): (t: seq<Event>)
    ensures |t| == 2 * |bs|
    ensures forall i :: 0 <= i < |bs| ==> t[2 * i] == WouldEmpty(bs[i]) && t[2 * i + 1] == WouldDelete(bs[i])
  {
    if bs == [] then [] else [WouldEmpty(bs[0]), WouldDelete(bs[0])] + DryRunReports(bs[1..])
  }

  /** `main`: each remote call appends its event; a fatal error or
      `os.Exit` appends `Exit` and ends the run. */
  method Run(f: Flags, env: Env) returns (trace: seq<Event>)
    ensures trace == MainTrace(f, env)
  {
    if |f.term| == 0 {
      trace := [Exit(1)];
      return;
    }
    trace := [ListBuckets];
    if env.listFails {
      trace := trace + [Exit(1)];
      return;
    }
    var found := MatchBuckets(env.buckets, f.term);
    if |found| == 0 {
      trace := trace + [Exit(0)];
      return;
    }
    trace := trace + [Prompt];
    if !env.answer {
      trace := trace + [Exit(0)];
      return;
    }
    var rest := DestroyAll(found, f, env);
    trace := trace + rest;
  }

  /** The loop over the confirmed buckets; the session, and so the region,
      never changes. */
  method DestroyAll(found: seq<string>, f: Flags, env: Env) returns (trace: seq<Event>)
    ensures trace == Destroy(found, f.region, f.dryRun, env)
  {
    ghost var whole := Destroy(found, f.region, f.dryRun, env);
    trace := [];
    for i := 0 to |found|
      invariant trace + Destroy(found[i..], f.region, f.dryRun, env) == whole
    {
      ghost var rest := Destroy(found[i..], f.region, f.dryRun, env);
      ghost var next := Destroy(found[i + 1..], f.region, f.dryRun, env);
      assert found[i..][1..] == found[i + 1..];
      var events, stop := DestroyFirst(found[i..], f, env);
      assert rest == if stop then events else events + next;
      ghost var before := trace;
      trace := trace + events;
      if stop {
        return;
      }
      assert before + (events + next) == trace + next;
    }
    assert found[|found|..] == [];
    trace := trace + [Exit(0)];
  }

  /** One pass of the loop body, for the first bucket of `bs`: empty it,
      then delete it, or report both in dry-run; `stop` when a call failed
      and the process exits. */
  method DestroyFirst(bs: seq<string>, f: Flags, env: Env) returns (events: seq<Event>, stop: bool)
    requires bs != []
    ensures Destroy(bs, f.region, f.dryRun, env)
         == if stop then events else events + Destroy(bs[1..], f.region, f.dryRun, env)
  {
    var b := bs[0];
    events := [];
    stop := false;
    if !f.dryRun {
      events := events + [Empty(b, f.region)];
      if b in env.emptyFails {
        events := events + [Exit(1)];
        stop := true;
        return;
      }
    } else {
      events := events + [WouldEmpty(b)];
    }
    if !f.dryRun {
      events := events + [Delete(b, f.region)];
      if b in env.deleteFails {
        events := events + [Exit(1)];
        stop := true;
        return;
      }
      events := events + [WaitGone(b, f.region)];
    } else {
      events := events + [WouldDelete(b)];
    }
  }

  // ---------------------------------------------------------------------
  // The per-bucket loop

  /** The loop ends with one `Exit`, pairs every `Empty` with its `Delete`,
      and stops at the first failing call. */
  lemma DestroyWellFormed(bs: seq<string>, region: string, dryRun: bool, env: Env)
    ensures var t := Destroy(bs, region, dryRun, env);
      ExitsOnceAtEnd(t) && Paired(t) && FailuresEndRun(t, env) && ExitsOneOnlyOnFailure(t, env)
  {
    DestroyExitsOnce(bs, region, dryRun, env);
    DestroyPaired(bs, region, dryRun, env);
    DestroyFailuresEndRun(bs, region, dryRun, env);
    DestroyExitsOneOnlyOnFailure(bs, region, dryRun, env);
  }

  lemma {:induction false} DestroyExitsOneOnlyOnFailure(bs: seq<string>, region: string, dryRun: bool, env: Env)
    ensures ExitsOneOnlyOnFailure(Destroy(bs, region, dryRun, env), env)
  {
    if bs != [] {
      var b := bs[0];
      if dryRun || (b !in env.emptyFails && b !in env.deleteFails) {
        var block := if dryRun then [WouldEmpty(b), WouldDelete(b)]
                     else [Empty(b, region), Delete(b, region), WaitGone(b, region)];
        DestroyExitsOneOnlyOnFailure(bs[1..], region, dryRun, env);
        ExitsOneOnlyOnFailureAppend(block, Destroy(bs[1..], region, dryRun, env), env);
      }
    }
  }

  lemma {:induction false} DestroyExitsOnce(bs: seq<string>, region: string, dryRun: bool, env: Env)
    ensures ExitsOnceAtEnd(Destroy(bs, region, dryRun, env))
  {
    if bs != [] {
      var b := bs[0];
      if dryRun || (b !in env.emptyFails && b !in env.deleteFails) {
        var block := if dryRun then [WouldEmpty(b), WouldDelete(b)]
                     else [Empty(b, region), Delete(b, region), WaitGone(b, region)];
        DestroyExitsOnce(bs[1..], region, dryRun, env);
        ExitsOnceAtEndAppend(block, Destroy(bs[1..], region, dryRun, env));
      }
    }
  }

  lemma {:induction false} DestroyPaired(bs: seq<string>, region: string, dryRun: bool, env: Env)
    ensures Paired(Destroy(bs, region, dryRun, env))
  {
    if bs != [] {
      var b := bs[0];
      if dryRun || (b !in env.emptyFails && b !in env.deleteFails) {
        var block := if dryRun then [WouldEmpty(b), WouldDelete(b)]
                     else [Empty(b, region), Delete(b, region), WaitGone(b, region)];
        DestroyPaired(bs[1..], region, dryRun, env);
        PairedAppend(block, Destroy(bs[1..], region, dryRun, env));
      }
    }
  }

  lemma {:induction false} DestroyFailuresEndRun(bs: seq<string>, region: string, dryRun: bool, env: Env)
    ensures FailuresEndRun(Destroy(bs, region, dryRun, env), env)
  {
    if bs != [] {
      var b := bs[0];
      if dryRun || (b !in env.emptyFails && b !in env.deleteFails) {
        var block := if dryRun then [WouldEmpty(b), WouldDelete(b)]
                     else [Empty(b, region), Delete(b, region), WaitGone(b, region)];
        DestroyFailuresEndRun(bs[1..], region, dryRun, env);
        FailuresEndRunAppend(block, Destroy(bs[1..], region, dryRun, env), env);
      }
    }
  }

  /** Only buckets of `bs` change, never in dry-run, all in `region`. */
  lemma {:induction false} DestroyEffects(bs: seq<string>, region: string, dryRun: bool, env: Env)
    ensures forall e :: e in Destroy(bs, region, dryRun, env) && Mutates(e) ==>
      !dryRun && e.bucket in bs && e.region == region
    ensures Prompt !in Destroy(bs, region, dryRun, env)
  {
    if bs != [] {
      DestroyEffects(bs[1..], region, dryRun, env);
    }
  }

  /** In dry-run the loop reports every bucket and exits with status 0. */
  lemma {:induction false} DestroyDryRun(bs: seq<string>, region: string, env: Env)
    ensures Destroy(bs, region, true, env) == DryRunReports(bs) + [Exit(0)]
  {
    if bs != [] {
      DestroyDryRun(bs[1..], region, env);
    }
  }

  /** Buckets are deleted in the order given; all of them when no call fails. */
  lemma {:induction false} DestroyOrder(bs: seq<string>, region: string, dryRun: bool, env: Env)
    ensures DeletedBuckets(Destroy(bs, region, dryRun, env)) <= bs
    ensures !dryRun && (forall b :: b in bs ==> b !in env.emptyFails && b !in env.deleteFails)
      ==> DeletedBuckets(Destroy(bs, region, dryRun, env)) == bs
          && Destroy(bs, region, dryRun, env)[|Destroy(bs, region, dryRun, env)| - 1] == Exit(0)
  {
    if bs != [] {
      var b := bs[0];
      if !dryRun && b !in env.emptyFails && b !in env.deleteFails {
        var rest := Destroy(bs[1..], region, dryRun, env);
        DestroyOrder(bs[1..], region, dryRun, env);
        DeletedBucketsAppend([Empty(b, region), Delete(b, region), WaitGone(b, region)], rest);
        DeletedOfBlock(b, region, WaitGone(b, region));
        assert bs == [b] + bs[1..];
      } else if !dryRun && b !in env.emptyFails {
        DeletedOfBlock(b, region, Exit(1));
        assert [b] <= bs;
      } else {
        DestroyEffects(bs, region, dryRun, env);
        DeletedBucketsNone(Destroy(bs, region, dryRun, env));
      }
    }
  }

  lemma DeletedOfBlock(b: string, region: string, last: Event)
    requires !last.Delete?
    ensures DeletedBuckets([Empty(b, region), Delete(b, region), last]) == [b]
  {
    DeletedBucketsAppend([Empty(b, region)], [Delete(b, region), last]);
    DeletedBucketsNone([Empty(b, region)]);
    assert [Delete(b, region), last][1..] == [last];
    DeletedBucketsNone([last]);
    assert [Empty(b, region)] + [Delete(b, region), last] == [Empty(b, region), Delete(b, region), last];
  }

  lemma {:induction false} DestroyIgnoresWait(bs: seq<string>, region: string, dryRun: bool, env: Env, w: set<string>)
    ensures Destroy(bs, region, dryRun, env) == Destroy(bs, region, dryRun, env.(waitTimesOut := w))
  {
    if bs != [] {
      DestroyIgnoresWait(bs[1..], region, dryRun, env, w);
    }
  }

  /** Each bucket of `bs` gets both dry-run reports, and nothing changes. */
  lemma {:induction false} DryRunReportsCover(bs: seq<string>)
    ensures forall b :: b in bs ==> WouldEmpty(b) in DryRunReports(bs) && WouldDelete(b) in DryRunReports(bs)
    ensures NoMutation(DryRunReports(bs))
  {
    if bs != [] {
      DryRunReportsCover(bs[1..]);
    }
  }

  // ---------------------------------------------------------------------
  // Whole runs

  /** Every run ends with exactly one `Exit`, pairs every `Empty` with its
      `Delete` and stops at the first failing call; once a term is given,
      it exits with status 1 only right after a failing call. */
  lemma WellFormed(f: Flags, env: Env)
    ensures var t := MainTrace(f, env);
      ExitsOnceAtEnd(t) && Paired(t) && FailuresEndRun(t, env)
    ensures f.term != "" ==> ExitsOneOnlyOnFailure(MainTrace(f, env), env)
  {
    var found := MatchingNames(env.buckets, f.term);
    if |f.term| > 0 && !env.listFails && found != [] && env.answer {
      var pre := [ListBuckets, Prompt];
      DestroyWellFormed(found, f.region, f.dryRun, env);
      WellFormedAfter(pre, Destroy(found, f.region, f.dryRun, env), env);
    }
  }

  /** An empty term ends the run with status 1 before any remote call. */
  lemma EmptyTermRejected(f: Flags, env: Env)
    requires f.term == ""
    ensures MainTrace(f, env) == [Exit(1)]
  {
  }

  /** With no matching bucket the run ends cleanly, before any prompt and
      any change. */
  lemma NoMatchExitsCleanly(f: Flags, env: Env)
    requires f.term != "" && !env.listFails && MatchingNames(env.buckets, f.term) == []
    ensures MainTrace(f, env) == [ListBuckets, Exit(0)]
  {
  }

  /** There is no quiet mode: the prompt is shown iff the term is given,
      the listing succeeds and some bucket matched. */
  lemma PromptIff(f: Flags, env: Env)
    ensures Prompt in MainTrace(f, env)
        <==> f.term != "" && !env.listFails && MatchingNames(env.buckets, f.term) != []
  {
    DestroyEffects(MatchingNames(env.buckets, f.term), f.region, f.dryRun, env);
  }

  /** Answering "No" ends the run with status 0 and changes nothing. */
  lemma DeclineChangesNothing(f: Flags, env: Env)
    requires f.term != "" && !env.answer && !env.listFails
    ensures NoMutation(MainTrace(f, env))
    ensures MainTrace(f, env)[|MainTrace(f, env)| - 1] == Exit(0)
  {
  }

  /** A bucket is emptied or deleted only if it matched, the user said
      "Yes", dry-run is off, and always in the one configured region. */
  lemma OnlyApprovedMatchesChange(f: Flags, env: Env)
    ensures forall e :: e in MainTrace(f, env) && Mutates(e) ==>
      && e.bucket in env.buckets
      && Matches(e.bucket, f.term)
      && env.answer
      && !f.dryRun
      && e.region == f.region
  {
    var found := MatchingNames(env.buckets, f.term);
    DestroyEffects(found, f.region, f.dryRun, env);
    forall e | e in MainTrace(f, env) && Mutates(e)
      ensures e.bucket in env.buckets && Matches(e.bucket, f.term)
    {
      MatchedIff(env.buckets, f.term, e.bucket);
    }
  }

  /** Dry-run changes nothing and, once confirmed, reports both actions for
      every matched bucket in order, then exits with status 0. */
  lemma DryRunReportsAll(f: Flags, env: Env)
    requires f.dryRun
    ensures NoMutation(MainTrace(f, env))
    ensures var found := MatchingNames(env.buckets, f.term);
      f.term != "" && !env.listFails && found != [] && env.answer ==>
        && MainTrace(f, env) == [ListBuckets, Prompt] + DryRunReports(found) + [Exit(0)]
        && forall b :: b in found ==> WouldEmpty(b) in MainTrace(f, env) && WouldDelete(b) in MainTrace(f, env)
  {
    OnlyApprovedMatchesChange(f, env);
    var found := MatchingNames(env.buckets, f.term);
    if f.term != "" && !env.listFails && found != [] && env.answer {
      DestroyDryRun(found, f.region, env);
      DryRunReportsCover(found);
    }
  }

  /** Buckets are deleted in match order; when no call fails, every matched
      bucket is deleted and the run exits with status 0. */
  lemma DeletesInMatchOrder(f: Flags, env: Env)
    ensures DeletedBuckets(MainTrace(f, env)) <= MatchingNames(env.buckets, f.term)
    ensures var found := MatchingNames(env.buckets, f.term);
      && f.term != "" && !env.listFails && env.answer && !f.dryRun
      && (forall b :: b in found ==> b !in env.emptyFails && b !in env.deleteFails)
      ==> DeletedBuckets(MainTrace(f, env)) == found && MainTrace(f, env)[|MainTrace(f, env)| - 1] == Exit(0)
  {
    if |f.term| == 0 || env.listFails {
      DeletedBucketsNone(MainTrace(f, env));
    } else {
      DeletesInOrderAfterListing(f, env, MatchingNames(env.buckets, f.term));
    }
  }

  lemma DeletesInOrderAfterListing(f: Flags, env: Env, found: seq<string>)
    ensures DeletedBuckets(AfterListing(f, env, found)) <= found
    ensures && env.answer && !f.dryRun
      && (forall b :: b in found ==> b !in env.emptyFails && b !in env.deleteFails)
      ==> DeletedBuckets(AfterListing(f, env, found)) == found
          && AfterListing(f, env, found)[|AfterListing(f, env, found)| - 1] == Exit(0)
  {
    if found == [] || !(env.answer) {
      DeletedBucketsNone(AfterListing(f, env, found));
    } else {
      var pre := [ListBuckets, Prompt];
      DestroyOrder(found, f.region, f.dryRun, env);
      DeletedAfter(pre, Destroy(found, f.region, f.dryRun, env));
    }
  }

  /** A run does not depend on whether waits for absence time out. */
  lemma IgnoresWaitTimeouts(f: Flags, env: Env, w: set<string>)
    ensures MainTrace(f, env) == MainTrace(f, env.(waitTimesOut := w))
  {
    DestroyIgnoresWait(MatchingNames(env.buckets, f.term), f.region, f.dryRun, env, w);
  }
}
