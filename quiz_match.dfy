/**
 * The quiz answer matcher of app/services/quiz.py: text normalisation, the
 * Levenshtein distance, the greedy one-to-one word matcher with a shared typo
 * budget, and the word-count tiers of `check_answer`.
 */
module QuizMatch {
  import Text

  // ---------------------------------------------------------------------
  // Normalisation
  // ---------------------------------------------------------------------

  /** `_normalize_text`: lower case, every run of characters that are neither word
      characters nor whitespace becomes a space, whitespace is collapsed. */
  function NormalizeText(text: string): string {
    Text.CollapseSpaces(Text.PunctToSpace(Text.LowerStr(text)))
  }

  /** `_normalize_words`: the words of the normalised text, none for an empty one. */
  function NormalizeWords(text: string): seq<string> {
    var normalized := NormalizeText(text);
    if normalized == "" then [] else Text.Split(normalized)
  }

  /** The quiz normaliser and the moderation normaliser of app/utils/text.py agree,
      and the normalised text is the words joined by single spaces. */
  lemma NormalizeWordsAgree(text: string)
    ensures NormalizeWords(text) == Text.NormalizeWords(text)
    ensures NormalizeText(text) == Text.Join(NormalizeWords(text))
  {
    var words := Text.NormalizeWords(text);
    Text.SplitAreWords(Text.PunctToSpace(Text.LowerStr(text)));
    Text.SplitJoin(words);
    if words != [] {
      assert words[0] in words;
      assert |Text.Join(words)| >= |words[0]| > 0;
    }
  }

  // ---------------------------------------------------------------------
  // Edit distance
  // ---------------------------------------------------------------------

  function Min3(x: nat, y: nat, z: nat): nat {
    if x <= y && x <= z then x else if y <= z then y else z
  }

  /** The insert/delete/substitute edit distance between the first `i` characters of
      `a` and the first `j` characters of `b`, by the recurrence on the last characters. */
  function PrefixDistance(a: string, b: string, i: nat, j: nat): nat
    requires i <= |a| && j <= |b|
    decreases i + j
  {
    if i == 0 then j
    else if j == 0 then i
    else
      var cost := if a[i - 1] == b[j - 1] then 0 else 1;
      Min3(PrefixDistance(a, b, i - 1, j) + 1,
           PrefixDistance(a, b, i, j - 1) + 1,
           PrefixDistance(a, b, i - 1, j - 1) + cost)
  }

  /** The edit distance between two strings. */
  function EditDistance(a: string, b: string): nat {
    PrefixDistance(a, b, |a|, |b|)
  }

  /** The distance between two prefixes is zero exactly when they are equal. */
  lemma {:induction false} PrefixDistanceZeroIff(a: string, b: string, i: nat, j: nat)
    requires i <= |a| && j <= |b|
    ensures PrefixDistance(a, b, i, j) == 0 <==> a[..i] == b[..j]
    decreases i + j
  {
    if i > 0 && j > 0 {
      PrefixDistanceZeroIff(a, b, i - 1, j - 1);
      assert a[..i] == a[..i - 1] + [a[i - 1]];
      assert b[..j] == b[..j - 1] + [b[j - 1]];
      if a[..i] == b[..j] {
        assert a[..i][..i - 1] == a[..i - 1] && b[..j][..j - 1] == b[..j - 1];
      }
    } else if i > 0 {
      assert |a[..i]| != |b[..j]|;
    } else if j > 0 {
      assert |a[..i]| != |b[..j]|;
    }
  }

  /** The distance is zero exactly between equal strings. */
  lemma EditDistanceZeroIff(a: string, b: string)
    ensures EditDistance(a, b) == 0 <==> a == b
  {
    PrefixDistanceZeroIff(a, b, |a|, |b|);
    assert a[..|a|] == a && b[..|b|] == b;
  }

  /** The distance between two prefixes never exceeds the longer one's length. */
  lemma {:induction false} PrefixDistanceBound(a: string, b: string, i: nat, j: nat)
    requires i <= |a| && j <= |b|
    ensures PrefixDistance(a, b, i, j) <= if i >= j then i else j
    decreases i + j
  {
    if i > 0 && j > 0 {
      PrefixDistanceBound(a, b, i - 1, j - 1);
    }
  }

  /** The distance never exceeds the longer length. */
  lemma EditDistanceBound(a: string, b: string)
    ensures EditDistance(a, b) <= if |a| >= |b| then |a| else |b|
  {
    PrefixDistanceBound(a, b, |a|, |b|);
  }

  /** The distance to or from the empty string is the other string's length. */
  lemma EditDistanceEmpty(s: string)
    ensures EditDistance(s, "") == |s| && EditDistance("", s) == |s|
  {
  }

  /** `row` holds the distances from the first `i` characters of `left` to each prefix
      of `right`: one row of the dynamic programme. */
  predicate RowOk(left: string, right: string, i: nat, row: seq<nat>)
    requires i <= |left| && |row| <= |right| + 1
  {
    forall j :: 0 <= j < |row| ==> row[j] == PrefixDistance(left, right, i, j)
  }

  /** Appending the next cell, computed from the previous row and the current row. */
  lemma RowExtend(left: string, right: string, i: nat, prev: seq<nat>, curr: seq<nat>)
    requires 0 < i <= |left| && |prev| == |right| + 1 && 0 < |curr| <= |right|
    requires RowOk(left, right, i - 1, prev) && RowOk(left, right, i, curr)
    ensures
      var j := |curr|;
      var cost := if left[i - 1] == right[j - 1] then 0 else 1;
      RowOk(left, right, i, curr + [Min3(prev[j] + 1, curr[j - 1] + 1, prev[j - 1] + cost)])
  {
    var j := |curr|;
    assert PrefixDistance(left, right, i, j) ==
      Min3(prev[j] + 1, curr[j - 1] + 1, prev[j - 1] + if left[i - 1] == right[j - 1] then 0 else 1);
  }

  /** `_levenshtein_distance`: the early returns, then the two-row dynamic programme. */
  method Levenshtein(left: string, right: string) returns (d: nat)
    ensures d == EditDistance(left, right)
  {
    if left == right {
      EditDistanceZeroIff(left, right);
      return 0;
    }
    if |left| == 0 {
      return |right|;
    }
    if |right| == 0 {
      return |left|;
    }
    var prev: seq<nat> := seq(|right| + 1, j requires 0 <= j <= |right| => j);
    var i := 1;
    while i <= |left|
      invariant 1 <= i <= |left| + 1
      invariant |prev| == |right| + 1
      invariant RowOk(left, right, i - 1, prev)
    {
      var lch := left[i - 1];
      var curr: seq<nat> := [i];
      var j := 1;
      while j <= |right|
        invariant 1 <= j <= |right| + 1
        invariant |curr| == j
        invariant RowOk(left, right, i, curr)
      {
        var cost := if lch == right[j - 1] then 0 else 1;
        var cell := Min3(prev[j] + 1, curr[j - 1] + 1, prev[j - 1] + cost);
        RowExtend(left, right, i, prev, curr);
        assert RowOk(left, right, i, curr + [cell]);
        curr := curr + [cell];
        j := j + 1;
      }
      prev := curr;
      i := i + 1;
    }
    d := prev[|right|];
  }

  // ---------------------------------------------------------------------
  // Candidate pairs
  // ---------------------------------------------------------------------

  /** A tuple `(distance, c_idx, a_idx)` of `_match_words`. */
  datatype Pair = Pair(distance: nat, c: nat, a: nat)

  /** The pairs of correct word `ci` with the first `m` answer words that are within
      the budget, in answer order. */
  function RowPairs(correct: seq<string>, ci: nat, answer: seq<string>, budget: int, m: nat): seq<Pair>
    requires ci < |correct| && m <= |answer|
  {
    if m == 0 then []
    else
      var d := EditDistance(correct[ci], answer[m - 1]);
      RowPairs(correct, ci, answer, budget, m - 1) + (if d <= budget then [Pair(d, ci, m - 1)] else [])
  }

  /** The pairs of the first `n` correct words, correct-word-major. */
  function PairsUpTo(correct: seq<string>, answer: seq<string>, budget: int, n: nat): seq<Pair>
    requires n <= |correct|
  {
    if n == 0 then [] else PairsUpTo(correct, answer, budget, n - 1) + RowPairs(correct, n - 1, answer, budget, |answer|)
  }

  /** The list `pairs` that `_match_words` builds before sorting. */
  function CandidatePairs(correct: seq<string>, answer: seq<string>, budget: int): seq<Pair> {
    PairsUpTo(correct, answer, budget, |correct|)
  }

  /** A pair of word positions whose distance is within the budget. */
  predicate IsCandidate(p: Pair, correct: seq<string>, answer: seq<string>, budget: int) {
    p.c < |correct| && p.a < |answer| && p.distance == EditDistance(correct[p.c], answer[p.a]) && p.distance <= budget
  }

  lemma {:induction false} RowPairsIff(correct: seq<string>, ci: nat, answer: seq<string>, budget: int, m: nat, p: Pair)
    requires ci < |correct| && m <= |answer|
    ensures p in RowPairs(correct, ci, answer, budget, m) <==> p.c == ci && p.a < m && IsCandidate(p, correct, answer, budget)
  {
    if m > 0 {
      RowPairsIff(correct, ci, answer, budget, m - 1, p);
    }
  }

  /** Membership in the pairs of the first `n + 1` rows, from membership in the first
      `n` rows and in row `n`. */
  lemma ConcatMember(p: Pair, earlier: seq<Pair>, row: seq<Pair>, n: nat, candidate: bool)
    requires p in earlier <==> p.c < n && candidate
    requires p in row <==> p.c == n && candidate
    ensures p in earlier + row <==> p.c < n + 1 && candidate
  {
  }

  lemma {:induction false} PairsUpToIff(correct: seq<string>, answer: seq<string>, budget: int, n: nat, p: Pair)
    requires n <= |correct|
    ensures p in PairsUpTo(correct, answer, budget, n) <==> p.c < n && IsCandidate(p, correct, answer, budget)
  {
    if n > 0 {
      var earlier := PairsUpTo(correct, answer, budget, n - 1);
      var row := RowPairs(correct, n - 1, answer, budget, |answer|);
      var candidate := IsCandidate(p, correct, answer, budget);
      assert p in earlier <==> p.c < n - 1 && candidate by {
        PairsUpToIff(correct, answer, budget, n - 1, p);
      }
      assert p in row <==> p.c == n - 1 && candidate by {
        RowPairsIff(correct, n - 1, answer, budget, |answer|, p);
      }
      ConcatMember(p, earlier, row, n - 1, candidate);
      assert PairsUpTo(correct, answer, budget, n) == earlier + row;
    }
  }

  /** The candidate list holds exactly the in-budget pairs of word positions. */
  lemma CandidatePairsIff(correct: seq<string>, answer: seq<string>, budget: int, p: Pair)
    ensures p in CandidatePairs(correct, answer, budget) <==> IsCandidate(p, correct, answer, budget)
  {
    PairsUpToIff(correct, answer, budget, |correct|, p);
  }

  // ---------------------------------------------------------------------
  // The stable sort by distance
  // ---------------------------------------------------------------------

  /** Inserts `p` before the first element whose distance is not smaller. */
  function Insert(p: Pair, s: seq<Pair>): seq<Pair> {
    if s == [] || p.distance <= s[0].distance then [p] + s else [s[0]] + Insert(p, s[1..])
  }

  /** `pairs.sort(key=lambda item: item[0])`: a stable insertion sort by distance. */
  function SortByDistance(s: seq<Pair>): seq<Pair> {
    if s == [] then [] else Insert(s[0], SortByDistance(s[1..]))
  }

  predicate SortedByDistance(s: seq<Pair>) {
    forall i, j :: 0 <= i < j < |s| ==> s[i].distance <= s[j].distance
  }

  /** The pairs of `s` at distance `d`, in order. */
  function AtDistance(s: seq<Pair>, d: nat): seq<Pair> {
    if s == [] then [] else (if s[0].distance == d then [s[0]] else []) + AtDistance(s[1..], d)
  }

  lemma {:induction false} InsertPermutes(p: Pair, s: seq<Pair>)
    ensures multiset(Insert(p, s)) == multiset([p] + s)
  {
    if s != [] && p.distance > s[0].distance {
      InsertPermutes(p, s[1..]);
      assert s == [s[0]] + s[1..];
    }
  }

  /** Inserting adds exactly the inserted pair. */
  lemma {:induction false} InsertMembers(p: Pair, s: seq<Pair>)
    ensures forall x :: x in Insert(p, s) <==> x == p || x in s
  {
    if s != [] && p.distance > s[0].distance {
      InsertMembers(p, s[1..]);
      assert s == [s[0]] + s[1..];
    }
  }

  lemma {:induction false} InsertSorted(p: Pair, s: seq<Pair>)
    requires SortedByDistance(s)
    ensures SortedByDistance(Insert(p, s))
  {
    if s != [] && p.distance > s[0].distance {
      var rest := Insert(p, s[1..]);
      InsertSorted(p, s[1..]);
      InsertMembers(p, s[1..]);
      forall x | x in rest ensures s[0].distance <= x.distance {
        if x != p {
          var k :| 0 <= k < |s[1..]| && s[1..][k] == x;
          assert s[k + 1] == x;
        }
      }
      assert Insert(p, s) == [s[0]] + rest;
      forall i, j | 0 <= i < j < |Insert(p, s)| ensures Insert(p, s)[i].distance <= Insert(p, s)[j].distance {
        if i == 0 {
          assert Insert(p, s)[j] == rest[j - 1];
          assert rest[j - 1] in rest;
        }
      }
    }
  }

  lemma {:induction false} InsertRuns(p: Pair, s: seq<Pair>, d: nat)
    ensures AtDistance(Insert(p, s), d) == (if p.distance == d then [p] else []) + AtDistance(s, d)
  {
    if s != [] && p.distance > s[0].distance {
      var rest := Insert(p, s[1..]);
      InsertRuns(p, s[1..], d);
      assert Insert(p, s) == [s[0]] + rest;
      assert ([s[0]] + rest)[1..] == rest;
      assert AtDistance([s[0]] + rest, d) == (if s[0].distance == d then [s[0]] else []) + AtDistance(rest, d);
    } else {
      assert ([p] + s)[1..] == s;
    }
  }

  /** The sort returns a sorted permutation that keeps the order of equal-distance pairs. */
  lemma {:induction false} SortFacts(s: seq<Pair>)
    ensures multiset(SortByDistance(s)) == multiset(s)
    ensures SortedByDistance(SortByDistance(s))
    ensures forall d :: AtDistance(SortByDistance(s), d) == AtDistance(s, d)
  {
    if s != [] {
      SortFacts(s[1..]);
      InsertPermutes(s[0], SortByDistance(s[1..]));
      InsertSorted(s[0], SortByDistance(s[1..]));
      assert s == [s[0]] + s[1..];
      forall d ensures AtDistance(SortByDistance(s), d) == AtDistance(s, d) {
        InsertRuns(s[0], SortByDistance(s[1..]), d);
        assert AtDistance(s, d) == (if s[0].distance == d then [s[0]] else []) + AtDistance(s[1..], d);
      }
    }
  }

  lemma {:induction false} AtDistanceMember(s: seq<Pair>, p: Pair)
    requires p in s
    ensures p in AtDistance(s, p.distance)
  {
    if s[0] != p {
      AtDistanceMember(s[1..], p);
    }
  }

  lemma {:induction false} AtDistanceHead(s: seq<Pair>)
    requires s != [] && SortedByDistance(s)
    ensures AtDistance(s, s[0].distance)[0] == s[0]
    ensures forall d :: AtDistance(s[1..], d) == if d == s[0].distance then AtDistance(s, d)[1..] else AtDistance(s, d)
  {
  }

  lemma {:induction false} AtDistanceLowerBound(s: seq<Pair>, d: nat)
    requires s != [] && SortedByDistance(s) && AtDistance(s, d) != []
    ensures s[0].distance <= d
    decreases |s|
  {
    if s[0].distance != d {
      AtDistanceLowerBound(s[1..], d);
    }
  }

  /** Any sorted list with the same equal-distance runs as `s` is the sort of `s`: the
      model's sort gives exactly the order of any stable sort by distance. */
  lemma {:induction false} SortIsTheStableSort(s: seq<Pair>, t: seq<Pair>)
    requires SortedByDistance(t)
    requires forall d :: AtDistance(t, d) == AtDistance(s, d)
    ensures t == SortByDistance(s)
  {
    SortFacts(s);
    SortedUnique(t, SortByDistance(s));
  }

  /** Two sorted lists with the same equal-distance runs start with the same pair. */
  lemma HeadsAgree(t: seq<Pair>, u: seq<Pair>)
    requires t != [] && u != [] && SortedByDistance(t) && SortedByDistance(u)
    requires forall d :: AtDistance(t, d) == AtDistance(u, d)
    ensures t[0] == u[0]
  {
    var d0 := t[0].distance;
    assert u[0].distance == d0 by {
      AtDistanceMember(t, t[0]);
      AtDistanceMember(u, u[0]);
      assert AtDistance(u, d0) == AtDistance(t, d0);
      assert AtDistance(t, u[0].distance) == AtDistance(u, u[0].distance);
      AtDistanceLowerBound(u, d0);
      AtDistanceLowerBound(t, u[0].distance);
    }
    AtDistanceHead(t);
    AtDistanceHead(u);
    assert AtDistance(t, d0) == AtDistance(u, d0);
  }

  /** Two sorted lists with the same runs and the same first pair have tails with the
      same runs. */
  lemma TailsAgree(t: seq<Pair>, u: seq<Pair>)
    requires t != [] && u != [] && SortedByDistance(t) && SortedByDistance(u) && t[0] == u[0]
    requires forall d :: AtDistance(t, d) == AtDistance(u, d)
    ensures forall d :: AtDistance(t[1..], d) == AtDistance(u[1..], d)
  {
    AtDistanceHead(t);
    AtDistanceHead(u);
    forall d ensures AtDistance(t[1..], d) == AtDistance(u[1..], d) {
      assert AtDistance(t, d) == AtDistance(u, d);
    }
  }

  /** A sorted list is determined by its equal-distance runs. */
  lemma {:induction false} SortedUnique(t: seq<Pair>, u: seq<Pair>)
    requires SortedByDistance(t) && SortedByDistance(u)
    requires forall d :: AtDistance(t, d) == AtDistance(u, d)
    ensures t == u
    decreases |t|
  {
    if t == [] {
      if u != [] {
        AtDistanceMember(u, u[0]);
        assert false;
      }
    } else if u == [] {
      AtDistanceMember(t, t[0]);
      assert false;
    } else {
      HeadsAgree(t, u);
      TailsAgree(t, u);
      assert SortedByDistance(t[1..]) && SortedByDistance(u[1..]);
      SortedUnique(t[1..], u[1..]);
      assert t == [t[0]] + t[1..] && u == [u[0]] + u[1..];
    }
  }


  // ---------------------------------------------------------------------
  // The greedy matcher
  // ---------------------------------------------------------------------

  /** The correct-word indices of the accepted pairs (`used_c`). */
  function CsOf(acc: seq<Pair>): set<nat> {
    set p | p in acc :: p.c
  }

  /** The answer-word indices of the accepted pairs (`used_a`). */
  function AsOf(acc: seq<Pair>): set<nat> {
    set p | p in acc :: p.a
  }

  /** The summed distance of the accepted pairs (`total_typos`). */
  function Total(acc: seq<Pair>): nat {
    if acc == [] then 0 else Total(acc[..|acc| - 1]) + acc[|acc| - 1].distance
  }

  /** Accepting a pair adds its words to the used sets and its distance to the total. */
  lemma AppendPair(acc: seq<Pair>, p: Pair)
    ensures CsOf(acc + [p]) == CsOf(acc) + {p.c} && AsOf(acc + [p]) == AsOf(acc) + {p.a}
    ensures Total(acc + [p]) == Total(acc) + p.distance
  {
    assert (acc + [p])[..|acc|] == acc;
    assert p in acc + [p];
    assert forall q :: q in acc + [p] <==> q in acc || q == p;
  }

  /** What the greedy loop ends with: the accepted pairs, and whether it returned early. */
  datatype Outcome = Outcome(accepted: seq<Pair>, matched: bool)

  /** The loop of `_match_words` over the sorted pairs, from the state where `acc`
      has been accepted: a pair is skipped when one of its words is used or when it
      would overrun the budget; otherwise it is accepted, and the loop returns as
      soon as `needed` pairs are accepted. */
  function Greedy(pairs: seq<Pair>, needed: int, budget: int, acc: seq<Pair>): Outcome {
    if pairs == [] then Outcome(acc, false)
    else
      var p := pairs[0];
      if Blocked(p, acc, budget) then Greedy(pairs[1..], needed, budget, acc)
      else if |acc| + 1 >= needed then Outcome(acc + [p], true)
      else Greedy(pairs[1..], needed, budget, acc + [p])
  }

  /** The pairs the matcher accepts. */
  function AcceptedPairs(correct: seq<string>, answer: seq<string>, needed: int, budget: int): seq<Pair> {
    if correct == [] || answer == [] then []
    else Greedy(SortByDistance(CandidatePairs(correct, answer, budget)), needed, budget, []).accepted
  }

  /** `_match_words`: whether the matcher returns true. */
  predicate WordsMatch(correct: seq<string>, answer: seq<string>, needed: int, budget: int) {
    if correct == [] || answer == [] then false
    else Greedy(SortByDistance(CandidatePairs(correct, answer, budget)), needed, budget, []).matched
  }

  /** No correct word and no answer word is used twice. */
  predicate OneToOne(acc: seq<Pair>) {
    forall i, j :: 0 <= i < j < |acc| ==> acc[i].c != acc[j].c && acc[i].a != acc[j].a
  }

  /** A pair the loop would skip given the accepted pairs `acc`. */
  predicate Blocked(q: Pair, acc: seq<Pair>, budget: int) {
    q.c in CsOf(acc) || q.a in AsOf(acc) || Total(acc) + q.distance > budget
  }

  function Max(x: int, y: int): int {
    if x >= y then x else y
  }

  lemma {:induction false} TotalPrefix(acc: seq<Pair>, more: seq<Pair>)
    ensures Total(acc) <= Total(acc + more)
    decreases |more|
  {
    if more != [] {
      var init := more[..|more| - 1];
      assert (acc + more)[..|acc + more| - 1] == acc + init;
      assert Total(acc + more) == Total(acc + init) + more[|more| - 1].distance;
      TotalPrefix(acc, init);
    } else {
      assert acc + more == acc;
    }
  }

  lemma BlockedPrefix(q: Pair, acc: seq<Pair>, more: seq<Pair>, budget: int)
    requires Blocked(q, acc, budget)
    ensures Blocked(q, acc + more, budget)
  {
    TotalPrefix(acc, more);
    if q.c in CsOf(acc) {
      var p :| p in acc && p.c == q.c;
      assert p in acc + more;
    } else if q.a in AsOf(acc) {
      var p :| p in acc && p.a == q.a;
      assert p in acc + more;
    }
  }

  /** Accepting an unblocked pair keeps the accepted pairs one-to-one, adds its
      distance to the total, and blocks the pair itself from then on. */
  lemma AcceptStep(acc: seq<Pair>, p: Pair, budget: int)
    requires OneToOne(acc) && !Blocked(p, acc, budget)
    ensures OneToOne(acc + [p]) && Total(acc + [p]) == Total(acc) + p.distance
    ensures Blocked(p, acc + [p], budget)
  {
    var acc' := acc + [p];
    assert acc'[..|acc|] == acc;
    forall i | 0 <= i < |acc| ensures acc[i].c != p.c && acc[i].a != p.a {
      assert acc[i] in acc;
    }
    assert p in acc';
  }

  /** A pair blocked by `acc` stays blocked by any extension of `acc`, so it joins the
      pairs blocked by the final result. */
  lemma BlockedCons(p: Pair, rest: seq<Pair>, acc: seq<Pair>, accepted: seq<Pair>, budget: int)
    requires Blocked(p, acc, budget) && |acc| <= |accepted| && accepted[..|acc|] == acc
    requires forall q :: q in rest ==> Blocked(q, accepted, budget)
    ensures forall q :: q in [p] + rest ==> Blocked(q, accepted, budget)
  {
    assert accepted == acc + accepted[|acc|..];
    BlockedPrefix(p, acc, accepted[|acc|..], budget);
  }

  /** The greedy loop only appends: its accepted pairs extend `acc` with pairs of the
      input. */
  lemma {:induction false} GreedyExtends(pairs: seq<Pair>, needed: int, budget: int, acc: seq<Pair>)
    ensures var r := Greedy(pairs, needed, budget, acc);
      && |acc| <= |r.accepted| && r.accepted[..|acc|] == acc
      && (forall q :: q in r.accepted[|acc|..] ==> q in pairs)
  {
    if pairs != [] {
      var p, rest := pairs[0], pairs[1..];
      var r := Greedy(pairs, needed, budget, acc);
      assert forall q :: q in rest ==> q in pairs;
      if Blocked(p, acc, budget) {
        assert r == Greedy(rest, needed, budget, acc);
        GreedyExtends(rest, needed, budget, acc);
      } else {
        var acc' := acc + [p];
        assert acc'[..|acc|] == acc;
        if |acc| + 1 >= needed {
          assert r == Outcome(acc', true);
          assert r.accepted[|acc|..] == [p];
        } else {
          assert r == Greedy(rest, needed, budget, acc');
          GreedyExtends(rest, needed, budget, acc');
          assert r.accepted[..|acc'|] == acc';
          assert r.accepted[..|acc|] == acc;
          assert r.accepted[|acc|] == p by {
            assert r.accepted[..|acc'|][|acc|] == acc'[|acc|];
          }
          assert r.accepted[|acc|..] == [p] + r.accepted[|acc'|..];
        }
      }
    }
  }

  /** The greedy loop keeps its invariant from any consistent state: the accepted pairs
      stay one-to-one and within the budget, and the loop returns true exactly when
      `needed` (at least one) pairs are accepted. */
  lemma {:induction false} GreedyShape(pairs: seq<Pair>, needed: int, budget: int, acc: seq<Pair>)
    requires OneToOne(acc) && Total(acc) <= budget && |acc| < Max(needed, 1)
    ensures var r := Greedy(pairs, needed, budget, acc);
      && OneToOne(r.accepted) && Total(r.accepted) <= budget
      && (r.matched <==> |r.accepted| >= Max(needed, 1))
  {
    if pairs != [] {
      var p, rest := pairs[0], pairs[1..];
      var r := Greedy(pairs, needed, budget, acc);
      if Blocked(p, acc, budget) {
        assert r == Greedy(rest, needed, budget, acc);
        GreedyShape(rest, needed, budget, acc);
      } else {
        AcceptStep(acc, p, budget);
        if |acc| + 1 < needed {
          assert r == Greedy(rest, needed, budget, acc + [p]);
          GreedyShape(rest, needed, budget, acc + [p]);
        }
      }
    }
  }

  /** When the greedy loop returns false, every input pair is blocked by the final
      accepted pairs: a skipped pair stays blocked as pairs are added, and an accepted
      pair blocks itself. */
  lemma {:induction false} GreedyBlocked(pairs: seq<Pair>, needed: int, budget: int, acc: seq<Pair>)
    requires OneToOne(acc) && Total(acc) <= budget && |acc| < Max(needed, 1)
    ensures var r := Greedy(pairs, needed, budget, acc);
      !r.matched ==> forall q :: q in pairs ==> Blocked(q, r.accepted, budget)
  {
    if pairs != [] {
      var p, rest := pairs[0], pairs[1..];
      assert pairs == [p] + rest;
      var r := Greedy(pairs, needed, budget, acc);
      if Blocked(p, acc, budget) {
        assert r == Greedy(rest, needed, budget, acc);
        GreedyExtends(rest, needed, budget, acc);
        GreedyBlocked(rest, needed, budget, acc);
        if !r.matched {
          BlockedCons(p, rest, acc, r.accepted, budget);
        }
      } else if |acc| + 1 < needed {
        var acc' := acc + [p];
        AcceptStep(acc, p, budget);
        assert r == Greedy(rest, needed, budget, acc');
        GreedyExtends(rest, needed, budget, acc');
        GreedyBlocked(rest, needed, budget, acc');
        if !r.matched {
          BlockedCons(p, rest, acc', r.accepted, budget);
        }
      }
    }
  }

  /** What the greedy loop guarantees, from any consistent state: the accepted pairs
      extend `acc` with pairs of the input, are one-to-one and within the budget; it
      returns true exactly when `needed` (at least one) pairs are accepted; and when it
      returns false, every input pair is blocked by the final accepted pairs. */
  lemma GreedyFacts(pairs: seq<Pair>, needed: int, budget: int, acc: seq<Pair>)
    requires OneToOne(acc) && Total(acc) <= budget && |acc| < Max(needed, 1)
    ensures var r := Greedy(pairs, needed, budget, acc);
      && |acc| <= |r.accepted| && r.accepted[..|acc|] == acc
      && (forall q :: q in r.accepted[|acc|..] ==> q in pairs)
      && OneToOne(r.accepted) && Total(r.accepted) <= budget
      && (r.matched <==> |r.accepted| >= Max(needed, 1))
      && (!r.matched ==> forall q :: q in pairs ==> Blocked(q, r.accepted, budget))
  {
    GreedyExtends(pairs, needed, budget, acc);
    GreedyShape(pairs, needed, budget, acc);
    GreedyBlocked(pairs, needed, budget, acc);
  }

  /** The properties of `_match_words`: false for an empty word list; every accepted pair
      is an in-budget pair of word positions; no word is used twice; the summed distance
      stays within the budget; and it returns true exactly when `needed` pairs (at least
      one) are accepted. */
  lemma MatchWordsSound(correct: seq<string>, answer: seq<string>, needed: int, budget: int)
    requires budget >= 0
    ensures correct == [] || answer == [] ==> !WordsMatch(correct, answer, needed, budget)
    ensures var acc := AcceptedPairs(correct, answer, needed, budget);
      && (forall q :: q in acc ==> IsCandidate(q, correct, answer, budget))
      && OneToOne(acc) && Total(acc) <= budget
      && (WordsMatch(correct, answer, needed, budget) <==> |acc| >= Max(needed, 1))
  {
    if correct != [] && answer != [] {
      var sorted := SortByDistance(CandidatePairs(correct, answer, budget));
      GreedyFacts(sorted, needed, budget, []);
      SortFacts(CandidatePairs(correct, answer, budget));
      var acc := AcceptedPairs(correct, answer, needed, budget);
      forall q | q in acc ensures IsCandidate(q, correct, answer, budget) {
        assert acc[0..] == acc;
        assert q in multiset(sorted);
        CandidatePairsIff(correct, answer, budget, q);
      }
    }
  }

  /** When the matcher returns false, every in-budget pair is blocked by the pairs it
      accepted: the greedy choice is maximal. */
  lemma MatchWordsMaximal(correct: seq<string>, answer: seq<string>, needed: int, budget: int, q: Pair)
    requires correct != [] && answer != [] && budget >= 0
    requires IsCandidate(q, correct, answer, budget)
    requires !WordsMatch(correct, answer, needed, budget)
    ensures Blocked(q, AcceptedPairs(correct, answer, needed, budget), budget)
  {
    var sorted := SortByDistance(CandidatePairs(correct, answer, budget));
    GreedyFacts(sorted, needed, budget, []);
    SortFacts(CandidatePairs(correct, answer, budget));
    CandidatePairsIff(correct, answer, budget, q);
    assert q in multiset(sorted);
  }

  /** The nested loop of `_match_words` that lists the in-budget pairs. */
  method CollectPairs(correct: seq<string>, answer: seq<string>, budget: int) returns (pairs: seq<Pair>)
    ensures pairs == CandidatePairs(correct, answer, budget)
  {
    pairs := [];
    var ci := 0;
    while ci < |correct|
      invariant 0 <= ci <= |correct|
      invariant pairs == PairsUpTo(correct, answer, budget, ci)
    {
      var ai := 0;
      while ai < |answer|
        invariant 0 <= ai <= |answer|
        invariant pairs == PairsUpTo(correct, answer, budget, ci) + RowPairs(correct, ci, answer, budget, ai)
      {
        var distance := Levenshtein(correct[ci], answer[ai]);
        if distance <= budget {
          pairs := pairs + [Pair(distance, ci, ai)];
        }
        ai := ai + 1;
      }
      ci := ci + 1;
    }
  }

  /** `_match_words`: builds the in-budget pairs, sorts them by distance and runs the
      greedy loop over the `used_c`/`used_a` sets, the typo total and the match count. */
  method MatchWords(correct: seq<string>, answer: seq<string>, needed: int, budget: int) returns (matched: bool)
    ensures matched == WordsMatch(correct, answer, needed, budget)
  {
    if |correct| == 0 || |answer| == 0 {
      return false;
    }
    var pairs := CollectPairs(correct, answer, budget);
    pairs := SortByDistance(pairs);
    var usedC: set<nat> := {};
    var usedA: set<nat> := {};
    var totalTypos := 0;
    var matches := 0;
    ghost var acc: seq<Pair> := [];
    var k := 0;
    while k < |pairs|
      invariant 0 <= k <= |pairs|
      invariant Greedy(pairs[k..], needed, budget, acc) == Greedy(pairs, needed, budget, [])
      invariant usedC == CsOf(acc) && usedA == AsOf(acc)
      invariant totalTypos == Total(acc) && matches == |acc|
    {
      var p := pairs[k];
      assert pairs[k..][0] == p && pairs[k..][1..] == pairs[k + 1..];
      if p.c in usedC || p.a in usedA {
        assert Blocked(p, acc, budget);
        k := k + 1;
        continue;
      }
      if totalTypos + p.distance > budget {
        assert Blocked(p, acc, budget);
        k := k + 1;
        continue;
      }
      AppendPair(acc, p);
      usedC := usedC + {p.c};
      usedA := usedA + {p.a};
      totalTypos := totalTypos + p.distance;
      matches := matches + 1;
      acc := acc + [p];
      if matches >= needed {
        return true;
      }
      k := k + 1;
    }
    return false;
  }

  // ---------------------------------------------------------------------
  // check_answer
  // ---------------------------------------------------------------------

  /** The word-count tiers of `check_answer`, on the normalised word lists. */
  predicate TierAccepts(correctWords: seq<string>, answerWords: seq<string>) {
    if correctWords == [] || answerWords == [] then false
    else if |correctWords| == 1 then |answerWords| == 1 && WordsMatch(correctWords, answerWords, 1, 1)
    else if |correctWords| == 2 then WordsMatch(correctWords, answerWords, 1, 2)
    else WordsMatch(correctWords, answerWords, 2, 2)
  }

  /** `check_answer`: the tiers applied to the normalised canonical answer and candidate. */
  predicate CheckAnswer(correctAnswer: string, answer: string) {
    TierAccepts(NormalizeWords(correctAnswer), NormalizeWords(answer))
  }

  /** The matcher with one needed match accepts exactly when some in-budget pair exists. */
  lemma OneNeededIff(correct: seq<string>, answer: seq<string>, budget: int)
    requires budget >= 0
    ensures WordsMatch(correct, answer, 1, budget) <==>
      exists c, a :: 0 <= c < |correct| && 0 <= a < |answer| && EditDistance(correct[c], answer[a]) <= budget
  {
    MatchWordsSound(correct, answer, 1, budget);
    var acc := AcceptedPairs(correct, answer, 1, budget);
    if WordsMatch(correct, answer, 1, budget) {
      assert acc[0] in acc;
      var q := acc[0];
      assert EditDistance(correct[q.c], answer[q.a]) <= budget;
    } else if exists c, a :: 0 <= c < |correct| && 0 <= a < |answer| && EditDistance(correct[c], answer[a]) <= budget {
      var c, a :| 0 <= c < |correct| && 0 <= a < |answer| && EditDistance(correct[c], answer[a]) <= budget;
      var q := Pair(EditDistance(correct[c], answer[a]), c, a);
      MatchWordsMaximal(correct, answer, 1, budget, q);
      assert false;
    }
  }

  /** The tiers of `check_answer`: an empty word list is rejected; a one-word canonical
      answer accepts exactly a one-word candidate within distance 1; a two-word canonical
      answer accepts exactly when one of its words is within distance 2 of a candidate
      word; with three or more canonical words, an accepted candidate has two disjoint
      word pairs whose distances add up to at most 2, and a candidate with two exact
      word matches at distinct positions is accepted. */
  lemma TierFacts(cw: seq<string>, aw: seq<string>)
    ensures cw == [] || aw == [] ==> !TierAccepts(cw, aw)
    ensures |cw| == 1 ==>
      (TierAccepts(cw, aw) <==> |aw| == 1 && EditDistance(cw[0], aw[0]) <= 1)
    ensures |cw| == 2 ==>
      (TierAccepts(cw, aw) <==> exists c, a :: 0 <= c < 2 && 0 <= a < |aw| && EditDistance(cw[c], aw[a]) <= 2)
    ensures |cw| >= 3 && TierAccepts(cw, aw) ==>
      exists c1, a1, c2, a2 ::
        0 <= c1 < |cw| && 0 <= c2 < |cw| && 0 <= a1 < |aw| && 0 <= a2 < |aw|
        && c1 != c2 && a1 != a2
        && EditDistance(cw[c1], aw[a1]) + EditDistance(cw[c2], aw[a2]) <= 2
    ensures |cw| >= 3 && TwoExactMatches(cw, aw) ==> TierAccepts(cw, aw)
  {
    ThreeWordsSufficient(cw, aw);
    if |cw| == 1 {
      OneNeededIff(cw, aw, 1);
    } else if |cw| == 2 {
      OneNeededIff(cw, aw, 2);
    } else if |cw| >= 3 && TierAccepts(cw, aw) {
      TwoPairs(cw, aw);
    }
  }

  lemma TwoPairs(cw: seq<string>, aw: seq<string>)
    requires WordsMatch(cw, aw, 2, 2)
    ensures exists c1, a1, c2, a2 ::
        0 <= c1 < |cw| && 0 <= c2 < |cw| && 0 <= a1 < |aw| && 0 <= a2 < |aw|
        && c1 != c2 && a1 != a2
        && EditDistance(cw[c1], aw[a1]) + EditDistance(cw[c2], aw[a2]) <= 2
  {
    MatchWordsSound(cw, aw, 2, 2);
    var acc := AcceptedPairs(cw, aw, 2, 2);
    assert acc[0] in acc && acc[1] in acc;
    assert acc == acc[..2] + acc[2..];
    TotalPrefix(acc[..2], acc[2..]);
    assert Total(acc[..2]) == acc[0].distance + acc[1].distance by {
      assert acc[..2][..1] == [acc[0]];
    }
    var c1, a1, c2, a2 := acc[0].c, acc[0].a, acc[1].c, acc[1].a;
    assert EditDistance(cw[c1], aw[a1]) + EditDistance(cw[c2], aw[a2]) <= 2;
  }

  /** With a budget of 2 and two matches needed, the first pair the greedy loop accepts
      is the first of the sorted pairs, so no candidate has a smaller distance. */
  lemma FirstAcceptedIsLeast(cw: seq<string>, aw: seq<string>, q: Pair)
    requires cw != [] && aw != [] && IsCandidate(q, cw, aw, 2)
    ensures var acc := AcceptedPairs(cw, aw, 2, 2);
      |acc| >= 1 && acc[0].distance <= q.distance
  {
    var pairs := CandidatePairs(cw, aw, 2);
    var sorted := SortByDistance(pairs);
    SortFacts(pairs);
    CandidatePairsIff(cw, aw, 2, q);
    assert q in multiset(sorted);
    var k :| 0 <= k < |sorted| && sorted[k] == q;
    assert sorted[0].distance <= q.distance;
    GreedyTakesFirst(sorted, 2);
  }

  /** From nothing accepted, the greedy loop needing two pairs accepts the first pair
      when it fits the budget. */
  lemma GreedyTakesFirst(sorted: seq<Pair>, budget: int)
    requires sorted != [] && sorted[0].distance <= budget
    ensures var acc := Greedy(sorted, 2, budget, []).accepted;
      |acc| >= 1 && acc[0] == sorted[0]
  {
    var first := sorted[0];
    var none: seq<Pair> := [];
    assert CsOf(none) == {} && AsOf(none) == {} && Total(none) == 0;
    assert !Blocked(first, none, budget);
    assert none + [first] == [first];
    assert Greedy(sorted, 2, budget, []) == Greedy(sorted[1..], 2, budget, [first]);
    GreedyExtends(sorted[1..], 2, budget, [first]);
  }

  /** Sufficiency for three or more canonical words: two exact word matches at distinct
      positions on both sides are accepted. Exact matches come first in distance order,
      and whichever of them the loop takes first leaves another exact match free. */
  lemma TwoExactAccepted(cw: seq<string>, aw: seq<string>, c1: nat, a1: nat, c2: nat, a2: nat)
    requires c1 < |cw| && c2 < |cw| && a1 < |aw| && a2 < |aw| && c1 != c2 && a1 != a2
    requires cw[c1] == aw[a1] && cw[c2] == aw[a2]
    ensures WordsMatch(cw, aw, 2, 2)
  {
    if !WordsMatch(cw, aw, 2, 2) {
      EditDistanceZeroIff(cw[c1], aw[a1]);
      EditDistanceZeroIff(cw[c2], aw[a2]);
      EditDistanceZeroIff(cw[c1], aw[a2]);
      EditDistanceZeroIff(cw[c2], aw[a1]);
      var q1, q2 := Pair(0, c1, a1), Pair(0, c2, a2);
      MatchWordsSound(cw, aw, 2, 2);
      FirstAcceptedIsLeast(cw, aw, q1);
      var acc := AcceptedPairs(cw, aw, 2, 2);
      var p := acc[0];
      assert acc == [p];
      assert p in acc;
      EditDistanceZeroIff(cw[p.c], aw[p.a]);
      assert CsOf(acc) == {p.c} && AsOf(acc) == {p.a};
      MatchWordsMaximal(cw, aw, 2, 2, q1);
      MatchWordsMaximal(cw, aw, 2, 2, q2);
      if p.c == c1 && p.a == a2 {
        MatchWordsMaximal(cw, aw, 2, 2, Pair(0, c2, a1));
      } else if p.c == c2 && p.a == a1 {
        MatchWordsMaximal(cw, aw, 2, 2, Pair(0, c1, a2));
      }
    }
  }

  /** Two correct words equal to two answer words, at distinct positions on both sides. */
  predicate TwoExactMatches(cw: seq<string>, aw: seq<string>) {
    exists c1: nat, a1: nat, c2: nat, a2: nat ::
      c1 < |cw| && c2 < |cw| && a1 < |aw| && a2 < |aw| && c1 != c2 && a1 != a2
      && cw[c1] == aw[a1] && cw[c2] == aw[a2]
  }

  /** The tier for three or more canonical words accepts two exact word matches. */
  lemma ThreeWordsSufficient(cw: seq<string>, aw: seq<string>)
    ensures |cw| >= 3 && TwoExactMatches(cw, aw) ==> TierAccepts(cw, aw)
  {
    if |cw| >= 3 && TwoExactMatches(cw, aw) {
      var c1: nat, a1: nat, c2: nat, a2: nat :|
        c1 < |cw| && c2 < |cw| && a1 < |aw| && a2 < |aw| && c1 != c2 && a1 != a2
        && cw[c1] == aw[a1] && cw[c2] == aw[a2];
      TwoExactAccepted(cw, aw, c1, a1, c2, a2);
    }
  }

  /** Two copies of the same non-empty word list always match, whatever the tier. */
  lemma SameWordsAccepted(w: seq<string>)
    requires w != []
    ensures TierAccepts(w, w)
  {
    EditDistanceZeroIff(w[0], w[0]);
    if |w| <= 2 {
      OneNeededIff(w, w, |w|);
      assert EditDistance(w[0], w[0]) <= |w|;
    } else {
      MatchWordsSound(w, w, 2, 2);
      if !WordsMatch(w, w, 2, 2) {
        var acc := AcceptedPairs(w, w, 2, 2);
        var i := FreeDiagonal(acc);
        EditDistanceZeroIff(w[i], w[i]);
        MatchWordsMaximal(w, w, 2, 2, Pair(0, i, i));
        assert false;
      }
    }
  }

  /** At most one accepted pair, within the budget, leaves one of the three diagonal
      pairs `(0, i, i)` unblocked. */
  lemma FreeDiagonal(acc: seq<Pair>) returns (i: nat)
    requires |acc| <= 1 && Total(acc) <= 2
    ensures i < 3 && !Blocked(Pair(0, i, i), acc, 2)
  {
    if acc == [] {
      i := 0;
    } else {
      assert acc == [acc[0]];
      assert CsOf(acc) == {acc[0].c} && AsOf(acc) == {acc[0].a};
      i := if 0 != acc[0].c && 0 != acc[0].a then 0 else if 1 != acc[0].c && 1 != acc[0].a then 1 else 2;
    }
  }

  /** A candidate whose normalised words are those of the canonical answer is accepted. */
  lemma ExactAnswerAccepted(correctAnswer: string, answer: string)
    requires NormalizeWords(answer) == NormalizeWords(correctAnswer) != []
    ensures CheckAnswer(correctAnswer, answer)
  {
    SameWordsAccepted(NormalizeWords(correctAnswer));
  }

  // ---------------------------------------------------------------------
  // build_answer_hint
  // ---------------------------------------------------------------------

  const OneWordHint := "Ответ: 1 слово."
  const ManyWordsHint := "В ответе много слов."

  /** `build_answer_hint`: tells players whether the answer is a single word. */
  function BuildAnswerHint(answer: string): string {
    if |NormalizeWords(answer)| <= 1 then OneWordHint else ManyWordsHint
  }

  /** The hint agrees with the matcher: under the one-word hint, only a one-word
      candidate can be accepted. */
  lemma HintAgreesWithMatcher(correctAnswer: string, answer: string)
    requires BuildAnswerHint(correctAnswer) == OneWordHint
    requires CheckAnswer(correctAnswer, answer)
    ensures |NormalizeWords(answer)| == 1
  {
  }
}
