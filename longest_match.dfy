/** The case-insensitive longest-prefix matcher shared by the keyword and
    symbol sub-lexers (`longest_match`). */
module Matching {
  import opened Tokens

  /** `option` equals, ignoring ASCII case, the text of `source` starting at `pos`. */
  predicate MatchesAt(source: string, pos: nat, option: string)
  {
    |option| <= |source| - pos && Lower(option) == Lower(source[pos..pos + |option|])
  }

  /** Matching, character by character. */
  lemma MatchesAtPointwise(source: string, pos: nat, option: string)
    ensures MatchesAt(source, pos, option) <==>
      |option| <= |source| - pos && forall i :: 0 <= i < |option| ==> LowerChar(option[i]) == LowerChar(source[pos + i])
  {
    if |option| <= |source| - pos && forall i :: 0 <= i < |option| ==> LowerChar(option[i]) == LowerChar(source[pos + i]) {
      assert Lower(option) == Lower(source[pos..pos + |option|]);
    }
    if MatchesAt(source, pos, option) {
      forall i | 0 <= i < |option|
        ensures LowerChar(option[i]) == LowerChar(source[pos + i])
      {
        assert Lower(option)[i] == Lower(source[pos..pos + |option|])[i];
      }
    }
  }

  /** The first of the longest options among `options[..n]` that match at `pos`
      and are at most `cap` long, or "" when there is none. */
  function BestUpTo(source: string, pos: nat, options: seq<string>, n: nat, cap: int): (r: string)
    requires n <= |options|
    ensures r == "" || (MatchesAt(source, pos, r) && |r| <= cap)
  {
    if n == 0 then ""
    else
      var best := BestUpTo(source, pos, options, n - 1, cap);
      var o := options[n - 1];
      if MatchesAt(source, pos, o) && |o| <= cap && |o| > |best| then o else best
  }

  /** What `longest_match` returns: the first of the longest options that match
      the source at `pos`, or "" when none does. */
  function LongestMatchOf(source: string, pos: nat, options: seq<string>): string
  {
    BestUpTo(source, pos, options, |options|, |source| - pos)
  }

  /** The first option among `options[..n]` that matches at `pos` and is exactly
      `m` long, or "" when there is none. */
  function FirstExact(source: string, pos: nat, options: seq<string>, n: nat, m: nat): (r: string)
    requires n <= |options|
    ensures |r| == 0 || |r| == m
  {
    if n == 0 then ""
    else
      var f := FirstExact(source, pos, options, n - 1, m);
      var o := options[n - 1];
      if |f| > 0 then f else if MatchesAt(source, pos, o) && |o| == m then o else ""
  }

  /** The options a cap lets through are all that matters. */
  lemma {:induction false} BestUpToSameCandidates(source: string, pos: nat, options: seq<string>, n: nat, cap1: int, cap2: int)
    requires n <= |options|
    requires forall j :: 0 <= j < n ==>
      (MatchesAt(source, pos, options[j]) && |options[j]| <= cap1) == (MatchesAt(source, pos, options[j]) && |options[j]| <= cap2)
    ensures BestUpTo(source, pos, options, n, cap1) == BestUpTo(source, pos, options, n, cap2)
  {
    if n > 0 {
      BestUpToSameCandidates(source, pos, options, n - 1, cap1, cap2);
    }
  }

  /** Raising the cap by one adds the first option of exactly the new length, if any. */
  lemma {:induction false} BestUpToStep(source: string, pos: nat, options: seq<string>, n: nat, k: nat)
    requires n <= |options|
    ensures BestUpTo(source, pos, options, n, k + 1) ==
      var f := FirstExact(source, pos, options, n, k + 1);
      if |f| > 0 then f else BestUpTo(source, pos, options, n, k)
  {
    if n > 0 {
      BestUpToStep(source, pos, options, n - 1, k);
    }
  }

  /** `BestUpTo` picks a matching option no shorter than any other within the cap,
      and strictly longer than every earlier one. */
  lemma {:induction false} BestUpToIsFirstLongest(source: string, pos: nat, options: seq<string>, n: nat, cap: int)
    requires n <= |options|
    ensures var r := BestUpTo(source, pos, options, n, cap);
      && (forall j :: 0 <= j < n && MatchesAt(source, pos, options[j]) && |options[j]| <= cap ==> |options[j]| <= |r|)
      && (r == "" ||
          exists j :: 0 <= j < n && options[j] == r &&
            forall i :: 0 <= i < j && MatchesAt(source, pos, options[i]) && |options[i]| <= cap ==> |options[i]| < |r|)
  {
    if n > 0 {
      BestUpToIsFirstLongest(source, pos, options, n - 1, cap);
      var best := BestUpTo(source, pos, options, n - 1, cap);
      var r := BestUpTo(source, pos, options, n, cap);
      if r != best {
        assert r == options[n - 1];
      }
    }
  }

  /** The result of `longest_match` is "" or a matching option, and no matching
      option is longer. */
  lemma LongestMatchOfBasics(source: string, pos: nat, options: seq<string>)
    ensures var r := LongestMatchOf(source, pos, options);
      && (r == "" || (r in options && MatchesAt(source, pos, r)))
      && (forall o :: o in options && MatchesAt(source, pos, o) ==> |o| <= |r|)
  {
    BestUpToIsFirstLongest(source, pos, options, |options|, |source| - pos);
    var r := LongestMatchOf(source, pos, options);
    forall o | o in options && MatchesAt(source, pos, o)
      ensures |o| <= |r|
    {
      var j :| 0 <= j < |options| && options[j] == o;
    }
  }

  /** Among the options of greatest length that match, `longest_match` returns the
      first: every earlier matching option is strictly shorter. */
  lemma LongestMatchOfIsFirst(source: string, pos: nat, options: seq<string>)
    ensures var r := LongestMatchOf(source, pos, options);
      r == "" ||
        exists j :: 0 <= j < |options| && options[j] == r &&
          forall i :: 0 <= i < j && MatchesAt(source, pos, options[i]) ==> |options[i]| < |r|
  {
    BestUpToIsFirstLongest(source, pos, options, |options|, |source| - pos);
  }

  /** When no option is empty, `longest_match` returns "" exactly when no option
      matches. */
  lemma LongestMatchOfEmpty(source: string, pos: nat, options: seq<string>)
    requires forall i :: 0 <= i < |options| ==> options[i] != ""
    ensures LongestMatchOf(source, pos, options) == "" <==> forall o :: o in options ==> !MatchesAt(source, pos, o)
  {
    LongestMatchOfBasics(source, pos, options);
  }

  /** No two entries of `xs` are equal. */
  predicate Distinct(xs: seq<nat>)
  {
    forall a, b :: 0 <= a < b < |xs| ==> xs[a] != xs[b]
  }

  /** The set of the entries of `xs`. */
  function Elements(xs: seq<nat>): (r: set<nat>)
    ensures forall x :: x in r <==> x in xs
  {
    if xs == [] then {} else {xs[0]} + Elements(xs[1..])
  }

  lemma {:induction false} ElementsCard(xs: seq<nat>)
    requires Distinct(xs)
    ensures |Elements(xs)| == |xs|
  {
    if xs != [] {
      assert Distinct(xs[1..]);
      ElementsCard(xs[1..]);
      assert xs[0] !in xs[1..];
    }
  }

  /** The indices below `n`. */
  function Below(n: nat): (r: set<nat>)
    ensures forall i: int :: i in r <==> 0 <= i < n
    ensures |r| == n
  {
    if n == 0 then {} else Below(n - 1) + {n - 1}
  }

  /** A list of `n` distinct indices below `n` lists every index below `n`. */
  lemma AllIndicesListed(xs: seq<nat>, n: nat)
    requires Distinct(xs) && |xs| == n
    requires forall x :: x in xs ==> x < n
    ensures forall i :: 0 <= i < n ==> i in xs
  {
    var listed := Elements(xs);
    var range := Below(n);
    ElementsCard(xs);
    forall i | 0 <= i < n
      ensures i in xs
    {
      if i !in xs {
        assert listed <= range - {i};
        assert |range - {i}| == n - 1;
        SubsetCard(listed, range - {i});
      }
    }
  }

  lemma SubsetCard(a: set<nat>, b: set<nat>)
    requires a <= b
    ensures |a| <= |b|
  {
    assert b == a + (b - a);
  }

  /** How many characters of `option`, counting from `t`, agree ignoring case with
      the source from `start + t` on. */
  function AgreeFrom(source: string, start: nat, option: string, t: nat): (r: nat)
    requires t <= |option| && start + t <= |source|
    ensures t <= r <= |option| && start + r <= |source|
    decreases |option| - t
  {
    if t < |option| && start + t < |source| && LowerChar(option[t]) == LowerChar(source[start + t])
    then AgreeFrom(source, start, option, t + 1)
    else t
  }

  /** `AgreeFrom` stops at the first disagreement or at the end of either text. */
  lemma {:induction false} AgreeFromStops(source: string, start: nat, option: string, t: nat)
    requires t <= |option| && start + t <= |source|
    ensures var r := AgreeFrom(source, start, option, t);
      && (forall u :: t <= u < r ==> LowerChar(option[u]) == LowerChar(source[start + u]))
      && (r == |option| || start + r == |source| || LowerChar(option[r]) != LowerChar(source[start + r]))
    decreases |option| - t
  {
    if t < |option| && start + t < |source| && LowerChar(option[t]) == LowerChar(source[start + t]) {
      AgreeFromStops(source, start, option, t + 1);
    }
  }

  /** The length of the longest case-insensitive common prefix of `option` and the
      source from `start` on (0 when `start` is past the end). */
  function CommonLength(source: string, start: nat, option: string): nat
  {
    if start <= |source| then AgreeFrom(source, start, option, 0) else 0
  }

  /** The first `k` characters of `option` match the source exactly when `k` is
      within the common prefix. */
  lemma PrefixAgreement(source: string, start: nat, option: string, k: nat)
    requires k <= |option| && start + k <= |source|
    ensures Lower(option[..k]) == Lower(source[start..start + k]) <==> k <= CommonLength(source, start, option)
  {
    var r := CommonLength(source, start, option);
    AgreeFromStops(source, start, option, 0);
    if k <= r {
      assert forall u :: 0 <= u < k ==> Lower(option[..k])[u] == Lower(source[start..start + k])[u];
    } else {
      assert Lower(option[..k])[r] != Lower(source[start..start + k])[r];
    }
  }

  /** An option matches exactly when all of it is within the common prefix. */
  lemma MatchesAtCommonLength(source: string, start: nat, option: string)
    requires start <= |source| || option != ""
    ensures MatchesAt(source, start, option) <==> CommonLength(source, start, option) == |option|
  {
    if |option| <= |source| - start {
      PrefixAgreement(source, start, option, |option|);
      assert option[..|option|] == option;
    }
  }

  /** An option still in the running after `k` characters: longer than `k`, and its
      first `k` characters match the source ignoring case. */
  predicate Viable(source: string, start: nat, option: string, k: nat)
  {
    k < |option| && k <= CommonLength(source, start, option)
  }

  /** An option that can no longer be a whole match longer than `k`. */
  predicate Eliminated(source: string, start: nat, option: string, k: nat)
  {
    !(CommonLength(source, start, option) == |option| && |option| > k)
  }

  /** What `longest_match` learns about one option when the scanned text grows to
      `k + 1` characters. */
  lemma ScanOption(source: string, start: nat, option: string, k: nat, substr: string)
    requires Viable(source, start, option, k)
    requires start + k + 1 <= |source| && substr == Lower(source[start..start + k + 1])
    ensures Lower(substr) == substr
    ensures Lower(option) == substr <==> MatchesAt(source, start, option) && |option| == k + 1
    ensures Lower(option) == substr ==> Eliminated(source, start, option, k + 1)
    ensures Lower(option) != substr ==>
      && |option| >= k + 1
      && (Lower(option[..k + 1]) == substr ==> Viable(source, start, option, k + 1))
      && (Lower(option[..k + 1]) != substr ==> Eliminated(source, start, option, k + 1))
  {
    LowerIdempotent(source[start..start + k + 1]);
    MatchesAtCommonLength(source, start, option);
    PrefixAgreement(source, start, option, k + 1);
    if |option| == k + 1 {
      assert option[..k + 1] == option;
    }
  }

  /** Once every option is skipped, no longer option can match: the best so far is final. */
  lemma EliminatedAllFinal(source: string, start: nat, options: seq<string>, k: nat)
    requires start + k <= |source|
    requires forall j :: 0 <= j < |options| ==> Eliminated(source, start, options[j], k)
    ensures BestUpTo(source, start, options, |options|, k) == LongestMatchOf(source, start, options)
  {
    forall j | 0 <= j < |options|
      ensures MatchesAt(source, start, options[j]) ==> |options[j]| <= k
    {
      MatchesAtCommonLength(source, start, options[j]);
    }
    BestUpToSameCandidates(source, start, options, |options|, k, |source| - start);
  }

  /** What `longest_match` knows after scanning `k` characters: its skip list holds
      distinct option indices; every skipped option is eliminated and every other
      one is still viable. */
  predicate Scanned(source: string, start: nat, options: seq<string>, skipList: seq<nat>, k: nat)
  {
    && Distinct(skipList)
    && (forall x :: x in skipList ==> x < |options|)
    && (forall j :: 0 <= j < |options| ==> Status(source, start, options[j], j in skipList, k))
  }

  /** Eliminated when skipped, viable otherwise. */
  predicate Status(source: string, start: nat, option: string, skipped: bool, k: nat)
  {
    if skipped then Eliminated(source, start, option, k) else Viable(source, start, option, k)
  }

  /** The options before `n` have the status their membership in `skipList` says. */
  predicate ScannedUpTo(source: string, start: nat, options: seq<string>, skipList: seq<nat>, n: nat, k: nat)
    requires n <= |options|
  {
    forall j :: 0 <= j < n ==> Status(source, start, options[j], j in skipList, k)
  }

  lemma ScannedUpToExtend(source: string, start: nat, options: seq<string>, before: seq<nat>, after: seq<nat>, n: nat, k: nat)
    requires n < |options|
    requires ScannedUpTo(source, start, options, before, n, k)
    requires after == before || after == before + [n]
    requires Status(source, start, options[n], n in after, k)
    ensures ScannedUpTo(source, start, options, after, n + 1, k)
  {
  }

  /** Recording the `i`th option when it is an exact match longer than the best so
      far keeps the best so far the first exact match, if any. */
  lemma FirstExactExtend(source: string, start: nat, options: seq<string>, i: nat, m: nat, matchIn: string, best: string)
    requires i < |options| && |matchIn| < m
    requires best == var f := FirstExact(source, start, options, i, m); if |f| > 0 then f else matchIn
    ensures (if MatchesAt(source, start, options[i]) && |options[i]| == m && |options[i]| > |best| then options[i] else best)
      == var f := FirstExact(source, start, options, i + 1, m); if |f| > 0 then f else matchIn
  {
  }

  /** What the sweep over the options needs on entry: `substr` is the lower-cased
      source from `start`, one character longer than at the previous sweep, and
      nothing longer than the previous length has been recorded yet. */
  predicate SweepReady(source: string, start: nat, options: seq<string>, substr: string, skipIn: seq<nat>, matchIn: string)
  {
    && |substr| > 0 && start + |substr| <= |source| && substr == Lower(source[start..start + |substr|])
    && Scanned(source, start, options, skipIn, |substr| - 1)
    && |matchIn| < |substr|
  }

  /** The state of the sweep after the first `i` options: the options from `i` on
      are skipped exactly as before the sweep, those before `i` have their new
      status, and the best so far is the first exact match of length `|substr|`
      among them, if any. */
  predicate Swept(source: string, start: nat, options: seq<string>, substr: string, skipIn: seq<nat>, matchIn: string,
                  i: nat, skipList: seq<nat>, strMatch: string)
    requires i <= |options|
  {
    && Distinct(skipList) && (forall x :: x in skipList ==> x < |options|)
    && (forall j :: i <= j < |options| ==> (j in skipList <==> j in skipIn))
    && ScannedUpTo(source, start, options, skipList, i, |substr|)
    && strMatch == var f := FirstExact(source, start, options, i, |substr|); if |f| > 0 then f else matchIn
  }

  /** One turn of the sweep, for each of the three ways the `i`th option can be handled. */
  lemma SweepStep(source: string, start: nat, options: seq<string>, substr: string, skipIn: seq<nat>, matchIn: string,
                  i: nat, skipList: seq<nat>, strMatch: string, skipAfter: seq<nat>, matchAfter: string)
    requires SweepReady(source, start, options, substr, skipIn, matchIn)
    requires i < |options| && Swept(source, start, options, substr, skipIn, matchIn, i, skipList, strMatch)
    requires i in skipList ==> skipAfter == skipList && matchAfter == strMatch
    requires i !in skipList && Lower(options[i]) == Lower(substr) ==>
      && skipAfter == skipList + [i]
      && matchAfter == if |options[i]| > |strMatch| then options[i] else strMatch
    requires i !in skipList && Lower(options[i]) != Lower(substr) ==>
      && matchAfter == strMatch
      && skipAfter == if |substr| > |options[i]| || Lower(substr) != Lower(options[i][..|substr|]) then skipList + [i] else skipList
    ensures Swept(source, start, options, substr, skipIn, matchIn, i + 1, skipAfter, matchAfter)
  {
    var k := |substr| - 1;
    var option := options[i];
    if i in skipList {
      assert i in skipIn;
      MatchesAtCommonLength(source, start, option);
    } else {
      ScanOption(source, start, option, k, substr);
    }
    ScannedUpToExtend(source, start, options, skipList, skipAfter, i, k + 1);
    FirstExactExtend(source, start, options, i, k + 1, matchIn, strMatch);
  }

  /** The inner loop of `longest_match`, run once the scanned text has grown to
      `substr`: every option not yet skipped is skipped when it equals `substr`
      (and then recorded if it is longer than the best so far) or when it no
      longer shares `substr` as a prefix. */
  method SweepOptions(ghost source: string, ghost start: nat, options: seq<string>, substr: string,
                      skipIn: seq<nat>, matchIn: string)
    returns (skipList: seq<nat>, strMatch: string)
    requires SweepReady(source, start, options, substr, skipIn, matchIn)
    ensures Scanned(source, start, options, skipList, |substr|)
    ensures strMatch ==
      var f := FirstExact(source, start, options, |options|, |substr|);
      if |f| > 0 then f else matchIn
  {
    skipList, strMatch := skipIn, matchIn;
    var i := 0;
    while i < |options|
      invariant i <= |options|
      invariant Swept(source, start, options, substr, skipIn, matchIn, i, skipList, strMatch)
    {
      ghost var before, matchBefore := skipList, strMatch;
      if i !in skipList {
        var option := options[i];
        ScanOption(source, start, option, |substr| - 1, substr);
        if Lower(option) == Lower(substr) {
          skipList := skipList + [i];
          if |option| > |strMatch| {
            strMatch := option;
          }
        } else {
          var idx := |substr|;
          var optSubstr := option[0..idx];
          var sharesPrefix := Lower(substr) == Lower(optSubstr);
          var tooLong := |substr| > |option|;
          if tooLong || !sharesPrefix {
            skipList := skipList + [i];
          }
        }
      }
      SweepStep(source, start, options, substr, skipIn, matchIn, i, before, matchBefore, skipList, strMatch);
      i := i + 1;
    }
  }

  /** Once every option is skipped, the best so far is final. */
  lemma AllSkippedIsFinal(source: string, start: nat, options: seq<string>, skipList: seq<nat>, k: nat)
    requires Scanned(source, start, options, skipList, k) && |skipList| == |options|
    requires start + k <= |source|
    ensures BestUpTo(source, start, options, |options|, k) == LongestMatchOf(source, start, options)
  {
    AllIndicesListed(skipList, |options|);
    forall j | 0 <= j < |options|
      ensures Eliminated(source, start, options[j], k)
    {
      assert j in skipList;
    }
    EliminatedAllFinal(source, start, options, k);
  }

  /** Once the source is exhausted, no longer option can match: the best so far is final. */
  lemma ExhaustedIsFinal(source: string, start: nat, options: seq<string>, k: nat)
    requires start + k >= |source| && (k > 0 ==> start + k == |source|)
    ensures BestUpTo(source, start, options, |options|, k) == LongestMatchOf(source, start, options)
  {
    BestUpToSameCandidates(source, start, options, |options|, k, |source| - start);
  }

  /** What `longest_match` knows between characters: `substr` is the lower-cased
      source from `start`, the options have the status the skip list says, and the
      best so far is the first longest match of at most `|substr|` characters. */
  predicate Scanning(source: string, start: nat, options: seq<string>, substr: string, skipList: seq<nat>, strMatch: string)
  {
    && (substr != "" ==> start + |substr| <= |source| && substr == Lower(source[start..start + |substr|]))
    && Scanned(source, start, options, skipList, |substr|)
    && strMatch == BestUpTo(source, start, options, |options|, |substr|)
  }

  /** Reading one more character readies the sweep, and the sweep's result is the
      best match of the new length. */
  lemma GrowScan(source: string, start: nat, options: seq<string>, substr: string, skipList: seq<nat>, strMatch: string)
    requires Scanning(source, start, options, substr, skipList, strMatch)
    requires start + |substr| < |source|
    ensures var grown := substr + [LowerChar(source[start + |substr|])];
      && SweepReady(source, start, options, grown, skipList, strMatch)
      && BestUpTo(source, start, options, |options|, |grown|) ==
           var f := FirstExact(source, start, options, |options|, |grown|);
           if |f| > 0 then f else strMatch
  {
    var grown := substr + [LowerChar(source[start + |substr|])];
    LowerSlice(source, start, start + |grown|);
    assert Lower(source)[start..start + |grown|] == Lower(source)[start..start + |substr|] + [LowerChar(source[start + |substr|])];
    LowerSlice(source, start, start + |substr|);
    BestUpToStep(source, start, options, |options|, |substr|);
  }

  /** `longest_match`: grows the lower-cased text scanned so far one character at
      a time, skipping each option once it matches whole or stops sharing the
      prefix, and keeps the longest whole match. The caller's cursor is passed by
      value and is not changed. */
  method LongestMatch(source: string, cursorIn: Cursor, options: seq<string>) returns (strMatch: string)
    requires forall i :: 0 <= i < |options| ==> options[i] != ""
    ensures strMatch == LongestMatchOf(source, cursorIn.pos, options)
  {
    var substr: string := "";
    var skipList: seq<nat> := [];
    strMatch := "";
    var cur := cursorIn;
    ghost var start := cursorIn.pos;

    while cur.pos < |source|
      invariant cur.pos == start + |substr|
      invariant Scanning(source, start, options, substr, skipList, strMatch)
      decreases |source| - cur.pos
    {
      GrowScan(source, start, options, substr, skipList, strMatch);
      var c := source[cur.pos];
      substr := substr + [LowerChar(c)];
      cur := cur.(pos := cur.pos + 1);
      skipList, strMatch := SweepOptions(source, start, options, substr, skipList, strMatch);

      if |skipList| == |options| {
        AllSkippedIsFinal(source, start, options, skipList, |substr|);
        break;
      }
    }
    if cur.pos >= |source| {
      ExhaustedIsFinal(source, start, options, |substr|);
    }
  }
}
