/** The bucket-name matcher, duplicated in the `s3` sub-command and the
    older stand-alone `main` and modelled once here: keep, in provider
    order, every bucket name that contains the lower-cased or the
    upper-cased search term. */
module Matcher {
  import opened Text

  /** The match test of one name: `Contains(name, ToLower(term)) ||
      Contains(name, ToUpper(term))`. A name holding the term in mixed case
      only (`"App-Logs"` for `"logs"`) does not match. */
  predicate Matches(name: string, term: string) {
    Contains(name, ToLower(term)) || Contains(name, ToUpper(term))
  }

  /** The names of `names` that match, in their original order. */
  function MatchingNames(names: seq<string>, term: string): (found: seq<string>)
    ensures |found| <= |names|
  {
    if names == [] then []
    else
      var last := names[|names| - 1];
      MatchingNames(names[..|names| - 1], term) + (if Matches(last, term) then [last] else [])
  }

  /** The positions of `names` whose name matches, in increasing order. */
  function MatchPositions(names: seq<string>, term: string): seq<nat>
  {
    if names == [] then []
    else
      var n := |names| - 1;
      MatchPositions(names[..n], term) + (if Matches(names[n], term) then [n] else [])
  }

  /** The search loop: walks the provider's list once and appends every
      matching name to the result. */
  method MatchBuckets(names: seq<string>, term: string) returns (found: seq<string>)
    ensures found == MatchingNames(names, term)
  {
    var lower := ToLower(term);
    var upper := ToUpper(term);
    found := [];
    for i := 0 to |names|
      invariant found == MatchingNames(names[..i], term)
    {
      assert names[..i + 1][..i] == names[..i];
      if Contains(names[i], lower) || Contains(names[i], upper) {
        found := found + [names[i]];
      }
    }
    assert names[..|names|] == names;
  }

  /** The result lists exactly the matching names, in provider order: the
      i-th found name is the name at the i-th matching position, the
      positions increase strictly, and a position is listed iff its name
      matches. */
  lemma {:induction false} MatchingInOrder(names: seq<string>, term: string)
    ensures var found, pos := MatchingNames(names, term), MatchPositions(names, term);
      && |found| == |pos|
      && (forall i :: 0 <= i < |pos| ==> pos[i] < |names| && found[i] == names[pos[i]])
      && (forall i, j :: 0 <= i < j < |pos| ==> pos[i] < pos[j])
      && (forall j :: 0 <= j < |names| ==> (j in pos <==> Matches(names[j], term)))
  {
    if names != [] {
      var n := |names| - 1;
      var init := names[..n];
      MatchingInOrder(init, term);
      var found', pos' := MatchingNames(init, term), MatchPositions(init, term);
      var hit := Matches(names[n], term);
      var found := found' + (if hit then [names[n]] else []);
      var pos := pos' + (if hit then [n] else []);
      assert found == MatchingNames(names, term);
      assert pos == MatchPositions(names, term);
      forall i | 0 <= i < |pos| ensures pos[i] < |names| && found[i] == names[pos[i]] {
        if i < |pos'| {
          assert names[pos'[i]] == init[pos'[i]];
        }
      }
      forall j | 0 <= j < |names| ensures j in pos <==> Matches(names[j], term) {
        if j < n {
          assert names[j] == init[j];
          assert j in pos <==> j in pos';
        }
      }
    }
  }

  /** No name is added twice or lost: a matching name occurs in the result
      as often as in the provider's list, any other name not at all. */
  lemma {:induction false} MatchCount(names: seq<string>, term: string, x: string)
    ensures multiset(MatchingNames(names, term))[x]
         == if Matches(x, term) then multiset(names)[x] else 0
  {
    if names != [] {
      var n := |names| - 1;
      var init, last := names[..n], names[n];
      var added := if Matches(last, term) then [last] else [];
      MatchCount(init, term, x);
      assert names == init + [last];
      assert multiset(names) == multiset(init) + multiset{last};
      assert MatchingNames(names, term) == MatchingNames(init, term) + added;
      assert multiset(MatchingNames(names, term)) == multiset(MatchingNames(init, term)) + multiset(added);
    }
  }

  /** A name is found iff the provider lists it and it matches. */
  lemma MatchedIff(names: seq<string>, term: string, x: string)
    ensures x in MatchingNames(names, term) <==> x in names && Matches(x, term)
  {
    MatchCount(names, term, x);
  }

  /** The empty term is contained in every name, so it matches every bucket. */
  lemma {:induction false} EmptyTermMatchesAll(names: seq<string>)
    ensures MatchingNames(names, "") == names
  {
    if names != [] {
      var n := |names| - 1;
      EmptyTermMatchesAll(names[..n]);
      assert "" <= names[n];
      assert names == names[..n] + [names[n]];
    }
  }

  /** The case in which the term is typed does not change the matches. */
  lemma TermCaseIrrelevant(name: string, term: string)
    ensures Matches(name, ToLower(term)) == Matches(name, term)
    ensures Matches(name, ToUpper(term)) == Matches(name, term)
  {
    LowerAfterUpper(term);
    UpperAfterLower(term);
  }

  /** A match is a case-insensitive occurrence of the term. */
  lemma MatchIsCaseInsensitive(name: string, term: string)
    requires Matches(name, term)
    ensures Contains(ToLower(name), ToLower(term))
  {
    var t := if Contains(name, ToLower(term)) then ToLower(term) else ToUpper(term);
    ContainsIff(name, t);
    var k :| OccursAt(name, t, k);
    LowerOfSlice(name, k, k + |t|);
    LowerAfterUpper(term);
    assert ToLower(t) == ToLower(term);
    assert OccursAt(ToLower(name), ToLower(term), k);
    ContainsIff(ToLower(name), ToLower(term));
  }

  /** The converse fails: `"App-Logs"` holds `"logs"` case-insensitively
      but is not matched by it. */
  lemma MixedCaseNotMatched()
    ensures Contains(ToLower("App-Logs"), ToLower("logs"))
    ensures !Matches("App-Logs", "logs")
  {
    LogsCases();
    LowerAppLogs();
    NoOccurrence("App-Logs", "logs");
    NoOccurrence("App-Logs", "LOGS");
  }

  lemma LowerAppLogs()
    ensures ToLower("App-Logs") == "app-logs"
    ensures Contains("app-logs", "logs")
  {
    forall i | 0 <= i < 8 ensures ToLower("App-Logs")[i] == "app-logs"[i] { }
    assert "app-logs"[4..] == "logs";
    ContainsIff("app-logs", "logs");
    assert OccursAt("app-logs", "logs", 4);
  }

  /** The two cases of the term `"logs"`. */
  lemma LogsCases()
    ensures ToLower("logs") == "logs" && ToUpper("logs") == "LOGS"
  {
    forall i | 0 <= i < 4 ensures ToLower("logs")[i] == "logs"[i] && ToUpper("logs")[i] == "LOGS"[i] { }
  }

  /** `t` does not occur in `s` when no window of `s` starts like `t`. */
  lemma NoOccurrence(s: string, t: string)
    requires |t| >= 2
    requires forall k :: 0 <= k < |s| - 1 ==> s[k] != t[0] || s[k + 1] != t[1]
    ensures !Contains(s, t)
  {
    ContainsIff(s, t);
    forall k | 0 <= k && k + |t| <= |s| ensures !OccursAt(s, t, k) {
      assert s[k..k + |t|][0] == s[k] && s[k..k + |t|][1] == s[k + 1];
    }
  }

  /** Term `"logs"` over `app-logs-1`, `LOGS-ARCHIVE`, `other` keeps the
      first two. */
  lemma LogsScenario()
    ensures MatchingNames(["app-logs-1", "LOGS-ARCHIVE", "other"], "logs")
         == ["app-logs-1", "LOGS-ARCHIVE"]
  {
    var names := ["app-logs-1", "LOGS-ARCHIVE", "other"];
    LogsScenarioNames();
    assert names[..2] == ["app-logs-1", "LOGS-ARCHIVE"];
    assert names[..2][..1] == ["app-logs-1"];
    assert names[..2][..1][..0] == [];
    assert MatchingNames(names[..2][..1], "logs") == ["app-logs-1"];
    assert MatchingNames(names[..2], "logs") == ["app-logs-1", "LOGS-ARCHIVE"];
  }

  /** Which of the scenario's names match `"logs"`. */
  lemma LogsScenarioNames()
    ensures Matches("app-logs-1", "logs")
    ensures Matches("LOGS-ARCHIVE", "logs")
    ensures !Matches("other", "logs")
  {
    LogsCases();
    assert "app-logs-1"[4..][..4] == "logs";
    assert Contains("app-logs-1"[4..], "logs");
    assert Contains("app-logs-1", "logs");
    assert "LOGS" <= "LOGS-ARCHIVE";
    NoOccurrence("other", "logs");
    NoOccurrence("other", "LOGS");
  }
}
