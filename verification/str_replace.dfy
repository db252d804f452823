/**
  Multi-pattern replacement of turbo/strings/str_replace.h: `StrReplaceAll`
  replaces, in one left-to-right pass, every occurrence of the keys of a list of
  (old, replacement) pairs. At each position the leftmost match wins, the
  longest key wins among matches at the same position, and replaced text is
  never looked at again.

  The body of `ApplySubstitutions` is not part of this model; `ReplaceFrom`
  states the result its documentation promises.
*/
module StrReplace {
  import opened Common

  /** One (old, replacement) pair of the mapping handed to `StrReplaceAll`. */
  datatype Replacement = Replacement(key: string, replacement: string)

  /** `ViableSubstitution`: a pair whose key occurs in the text, with the offset of an occurrence. */
  datatype ViableSubstitution = ViableSubstitution(key: string, replacement: string, offset: nat)

  /**
    `ViableSubstitution::OccursBefore`: `x` takes priority over `y` when it is
    further left, or at the same offset when its key is longer.
  */
  predicate OccursBefore(x: ViableSubstitution, y: ViableSubstitution)
  {
    if x.offset != y.offset then x.offset < y.offset else |x.key| > |y.key|
  }

  /**
    `OccursBefore` is a strict weak order: irreflexive, transitive, and its
    complement ("does not take priority") is transitive too.
  */
  lemma OccursBeforeIsStrictWeakOrder(x: ViableSubstitution, y: ViableSubstitution, z: ViableSubstitution)
    ensures !OccursBefore(x, x)
    ensures OccursBefore(x, y) ==> !OccursBefore(y, x)
    ensures OccursBefore(x, y) && OccursBefore(y, z) ==> OccursBefore(x, z)
    ensures !OccursBefore(x, y) && !OccursBefore(y, z) ==> !OccursBefore(x, z)
    ensures !OccursBefore(x, y) && !OccursBefore(y, x) <==> x.offset == y.offset && |x.key| == |y.key|
  {
  }

  /** `key` occurs in `s` at position `p`. */
  predicate MatchesAt(s: string, key: string, p: nat)
  {
    p + |key| <= |s| && s[p..p + |key|] == key
  }

  /** `string_view::find(key, from)`: the first position at or after `from` where `key` occurs. */
  function Find(s: string, key: string, from: nat): (r: Option<nat>)
    ensures r.Some? ==> from <= r.value && MatchesAt(s, key, r.value)
    ensures r.Some? ==> forall q :: from <= q < r.value ==> !MatchesAt(s, key, q)
    ensures r.None? ==> forall q :: from <= q ==> !MatchesAt(s, key, q)
    decreases |s| - from
  {
    if from + |key| > |s| then None
    else if s[from..from + |key|] == key then Some(from)
    else Find(s, key, from + 1)
  }

  /**
    The substitutions `FindSubstitutions` keeps, in the order of the pairs:
    one per pair whose key is non-empty and occurs in `s`, at its first
    occurrence.
  */
  function ViableOf(s: string, reps: seq<Replacement>): (subs: seq<ViableSubstitution>)
    ensures |subs| <= |reps|
    ensures forall v :: v in subs ==>
      |v.key| > 0 && Find(s, v.key, 0) == Some(v.offset) && Replacement(v.key, v.replacement) in reps
    ensures forall r :: r in reps && |r.key| > 0 && Find(s, r.key, 0).Some? ==>
      ViableSubstitution(r.key, r.replacement, Find(s, r.key, 0).value) in subs
  {
    if |reps| == 0 then []
    else
      var prefix := ViableOf(s, reps[..|reps| - 1]);
      var rep := reps[|reps| - 1];
      assert reps == reps[..|reps| - 1] + [rep];
      match Find(s, rep.key, 0)
      case None => prefix
      case Some(pos) =>
        if |rep.key| == 0 then prefix
        else prefix + [ViableSubstitution(rep.key, rep.replacement, pos)]
  }

  /** No element takes priority over a later one: the last element is the leftmost-then-longest. */
  predicate Sorted(subs: seq<ViableSubstitution>)
  {
    forall i, j :: 0 <= i < j < |subs| ==> !OccursBefore(subs[i], subs[j])
  }

  /**
    The insertion step of `FindSubstitutions`: appends `v` and swaps it towards
    the front while the element before it takes priority over it.
  */
  method InsertSubstitution(subs: seq<ViableSubstitution>, v: ViableSubstitution)
    returns (r: seq<ViableSubstitution>)
    requires Sorted(subs)
    ensures multiset(r) == multiset(subs) + multiset{v}
    ensures Sorted(r)
  {
    r := subs + [v];
    var index := |subs|;
    assert subs[index..] == [];
    while index > 0 && OccursBefore(r[index - 1], r[index])
      invariant 0 <= index <= |subs|
      invariant r == subs[..index] + [v] + subs[index..]
      invariant forall j :: index <= j < |subs| ==> OccursBefore(subs[j], v)
      decreases index
    {
      SwapMovesFront(subs, v, index);
      r := r[index - 1 := r[index]][index := r[index - 1]];
      index := index - 1;
    }
    InsertedIsSorted(subs, v, index);
    assert subs == subs[..index] + subs[index..];
  }

  /** One swap of the insertion loop moves `v` one place towards the front. */
  lemma SwapMovesFront(subs: seq<ViableSubstitution>, v: ViableSubstitution, index: nat)
    requires 0 < index <= |subs|
    ensures var r := subs[..index] + [v] + subs[index..];
      r[index - 1 := r[index]][index := r[index - 1]] == subs[..index - 1] + [v] + subs[index - 1..]
  {
    var r := subs[..index] + [v] + subs[index..];
    var t := r[index - 1 := r[index]][index := r[index - 1]];
    var u := subs[..index - 1] + [v] + subs[index - 1..];
    assert |t| == |u|;
    forall k | 0 <= k < |t|
      ensures t[k] == u[k]
    {
      if k < index - 1 {
      } else if k == index - 1 {
      } else if k == index {
      } else {
      }
    }
  }

  /**
    Where the insertion loop stops, `v` takes priority over nothing before it
    and everything after it takes priority over `v`, so the result is sorted.
  */
  lemma InsertedIsSorted(subs: seq<ViableSubstitution>, v: ViableSubstitution, index: nat)
    requires Sorted(subs)
    requires index <= |subs|
    requires index > 0 ==> !OccursBefore(subs[index - 1], v)
    requires forall j :: index <= j < |subs| ==> OccursBefore(subs[j], v)
    ensures Sorted(subs[..index] + [v] + subs[index..])
  {
    var r := subs[..index] + [v] + subs[index..];
    forall i, j | 0 <= i < j < |r|
      ensures !OccursBefore(r[i], r[j])
    {
      if j < index {
        assert r[i] == subs[i] && r[j] == subs[j];
      } else if j == index {
        if i < index - 1 {
          OccursBeforeIsStrictWeakOrder(subs[i], subs[index - 1], v);
        }
      } else if i == index {
        OccursBeforeIsStrictWeakOrder(subs[j - 1], v, v);
      } else if i < index {
        assert r[i] == subs[i] && r[j] == subs[j - 1];
      } else {
        assert r[i] == subs[i - 1] && r[j] == subs[j - 1];
      }
    }
  }

  /**
    `FindSubstitutions`: the viable substitutions of `replacements` in `s`, as
    a permutation of `ViableOf` sorted so that the last one is the leftmost and,
    among those, the longest.
  */
  method FindSubstitutions(s: string, replacements: seq<Replacement>) returns (subs: seq<ViableSubstitution>)
    ensures multiset(subs) == multiset(ViableOf(s, replacements))
    ensures Sorted(subs)
    ensures |subs| <= |replacements|
  {
    subs := [];
    var i := 0;
    while i < |replacements|
      invariant 0 <= i <= |replacements|
      invariant multiset(subs) == multiset(ViableOf(s, replacements[..i]))
      invariant Sorted(subs)
      decreases |replacements| - i
    {
      var rep := replacements[i];
      ViableOfExtend(s, replacements, i);
      var pos := Find(s, rep.key, 0);
      if pos.None? {
      } else if |rep.key| == 0 {
        // Replacing "" is ignored.
      } else {
        subs := InsertSubstitution(subs, ViableSubstitution(rep.key, rep.replacement, pos.value));
      }
      i := i + 1;
    }
    assert replacements[..i] == replacements;
    assert |subs| == |multiset(subs)| == |multiset(ViableOf(s, replacements))| == |ViableOf(s, replacements)|;
  }

  /** Looking at one more pair adds its substitution, if it has one, at the end. */
  lemma ViableOfExtend(s: string, reps: seq<Replacement>, i: nat)
    requires i < |reps|
    ensures ViableOf(s, reps[..i + 1]) == ViableOf(s, reps[..i]) +
      (if |reps[i].key| > 0 && Find(s, reps[i].key, 0).Some?
       then [ViableSubstitution(reps[i].key, reps[i].replacement, Find(s, reps[i].key, 0).value)]
       else [])
  {
    assert reps[..i + 1][..i] == reps[..i];
  }

  // ---------------------------------------------------------------------------
  // The documented result of the replacement pass.

  /**
    The pair whose key is chosen at position `p`: the longest non-empty key of
    `reps` that occurs there (the first such pair when several are equally long).
  */
  function LongestAt(s: string, p: nat, reps: seq<Replacement>): (r: Option<Replacement>)
    ensures r.Some? ==> 0 < |r.value.key| && p + |r.value.key| <= |s|
  {
    if |reps| == 0 then None
    else
      var rest := LongestAt(s, p, reps[1..]);
      var h := reps[0];
      if |h.key| > 0 && MatchesAt(s, h.key, p) && (rest.None? || |rest.value.key| <= |h.key|) then Some(h)
      else rest
  }

  /**
    `LongestAt` chooses a pair of the list whose non-empty key occurs at `p`,
    no key occurring there is longer, and it chooses nothing exactly when no
    non-empty key occurs there.
  */
  lemma {:induction false} LongestAtIsLongest(s: string, p: nat, reps: seq<Replacement>)
    ensures var r := LongestAt(s, p, reps);
      r.Some? ==> r.value in reps && |r.value.key| > 0 && MatchesAt(s, r.value.key, p)
    ensures var r := LongestAt(s, p, reps);
      r.Some? ==> forall q :: q in reps && |q.key| > 0 && MatchesAt(s, q.key, p) ==> |q.key| <= |r.value.key|
    ensures LongestAt(s, p, reps).None? ==> forall q :: q in reps ==> |q.key| == 0 || !MatchesAt(s, q.key, p)
    decreases |reps|
  {
    if |reps| > 0 {
      LongestAtIsLongest(s, p, reps[1..]);
      assert reps == [reps[0]] + reps[1..];
    }
  }

  /** The text of a replacement pass and the number of substitutions it made. */
  datatype Replaced = Replaced(text: string, count: nat)

  /**
    The result `ApplySubstitutions` documents for `s[i..]`: scanning left to
    right, the longest key occurring at the current position is replaced and
    the scan resumes after the replaced text; where no key occurs the character
    is kept.
  */
  function ReplaceFrom(s: string, i: nat, reps: seq<Replacement>): Replaced
    requires i <= |s|
    decreases |s| - i
  {
    if i == |s| then Replaced("", 0)
    else
      match LongestAt(s, i, reps)
      case Some(r) =>
        var rest := ReplaceFrom(s, i + |r.key|, reps);
        Replaced(r.replacement + rest.text, rest.count + 1)
      case None =>
        var rest := ReplaceFrom(s, i + 1, reps);
        Replaced([s[i]] + rest.text, rest.count)
  }

  /** Every substitution consumes at least one character, so a pass counts at most `|s| - i`. */
  lemma {:induction false} ReplaceCountBound(s: string, i: nat, reps: seq<Replacement>)
    requires i <= |s|
    ensures ReplaceFrom(s, i, reps).count <= |s| - i
    decreases |s| - i
  {
    if i < |s| {
      match LongestAt(s, i, reps)
      case Some(r) => ReplaceCountBound(s, i + |r.key|, reps);
      case None => ReplaceCountBound(s, i + 1, reps);
    }
  }

  /** The pairs a list of viable substitutions carries. */
  function PairsOf(subs: seq<ViableSubstitution>): (reps: seq<Replacement>)
    ensures |reps| == |subs|
    ensures forall k :: 0 <= k < |subs| ==> reps[k] == Replacement(subs[k].key, subs[k].replacement)
  {
    if |subs| == 0 then [] else [Replacement(subs[0].key, subs[0].replacement)] + PairsOf(subs[1..])
  }

  /** `ApplySubstitutions`: replaces in `s` according to the viable substitutions `subs`. */
  function ApplySubstitutions(s: string, subs: seq<ViableSubstitution>): (r: Replaced)
    ensures r.count <= |s|
    ensures subs == [] ==> r == Replaced(s, 0)
  {
    ReplaceCountBound(s, 0, PairsOf(subs));
    if subs == [] then NoViableSubstitutionKeepsText(s, []); ReplaceFrom(s, 0, [])
    else ReplaceFrom(s, 0, PairsOf(subs))
  }

  /** No two pairs share a key, as in the `std::map` and initializer-list mappings of the source. */
  predicate DistinctKeys(reps: seq<Replacement>)
  {
    forall i, j :: 0 <= i < j < |reps| ==> reps[i].key != reps[j].key
  }

  /**
    The choice at a position depends only on the pairs whose key occurs there:
    when every pair of `b` is a pair of `a`, and every pair of `a` whose key
    occurs at `p` is a pair of `b`, both choose the same pair.
  */
  lemma LongestAtAgree(s: string, p: nat, a: seq<Replacement>, b: seq<Replacement>)
    requires DistinctKeys(a)
    requires forall q :: q in b ==> q in a
    requires forall q :: q in a && |q.key| > 0 && MatchesAt(s, q.key, p) ==> q in b
    ensures LongestAt(s, p, a) == LongestAt(s, p, b)
  {
    LongestAtIsLongest(s, p, a);
    LongestAtIsLongest(s, p, b);
    var ra := LongestAt(s, p, a);
    var rb := LongestAt(s, p, b);
    if ra.Some? && rb.Some? {
      var x, y := ra.value, rb.value;
      assert |x.key| == |y.key|;
      assert x.key == s[p..p + |x.key|] == y.key;
      var i :| 0 <= i < |a| && a[i] == x;
      var j :| 0 <= j < |a| && a[j] == y;
      assert i == j;
    }
  }

  /** Two mappings that choose the same pair at every position replace identically. */
  lemma {:induction false} ReplaceFromAgree(s: string, i: nat, a: seq<Replacement>, b: seq<Replacement>)
    requires i <= |s|
    requires forall p :: i <= p < |s| ==> LongestAt(s, p, a) == LongestAt(s, p, b)
    ensures ReplaceFrom(s, i, a) == ReplaceFrom(s, i, b)
    decreases |s| - i
  {
    if i == |s| {
      PassAtEnd(s, a);
      PassAtEnd(s, b);
    } else if LongestAt(s, i, a).Some? {
      var r := LongestAt(s, i, a).value;
      ChosenStep(s, i, a, r);
      ReplaceFromAgree(s, i + |r.key|, a, b);
      ChosenAlike(s, i, a, b, r);
    } else {
      ReplaceFromAgree(s, i + 1, a, b);
      SkippedAlike(s, i, a, b);
    }
  }

  /** Where both mappings choose `r` and agree on the rest, they agree from `i`. */
  lemma ChosenAlike(s: string, i: nat, a: seq<Replacement>, b: seq<Replacement>, r: Replacement)
    requires i < |s| && LongestAt(s, i, a) == Some(r) && LongestAt(s, i, b) == Some(r)
    requires i + |r.key| <= |s| && ReplaceFrom(s, i + |r.key|, a) == ReplaceFrom(s, i + |r.key|, b)
    ensures ReplaceFrom(s, i, a) == ReplaceFrom(s, i, b)
  {
    ChosenStep(s, i, a, r);
    ChosenStep(s, i, b, r);
  }

  /** Where neither mapping chooses a pair and they agree on the rest, they agree from `i`. */
  lemma SkippedAlike(s: string, i: nat, a: seq<Replacement>, b: seq<Replacement>)
    requires i < |s| && LongestAt(s, i, a).None? && LongestAt(s, i, b).None?
    requires ReplaceFrom(s, i + 1, a) == ReplaceFrom(s, i + 1, b)
    ensures ReplaceFrom(s, i, a) == ReplaceFrom(s, i, b)
  {
    SkippedStep(s, i, a);
    SkippedStep(s, i, b);
  }

  /** At the end of the text the pass has nothing left to copy or count. */
  lemma PassAtEnd(s: string, reps: seq<Replacement>)
    ensures ReplaceFrom(s, |s|, reps) == Replaced("", 0)
  {
  }

  /**
    Replacing with the sorted viable substitutions is replacing with the
    original pairs: keys that are empty or absent from `s` never match.
  */
  lemma ApplySubstitutionsMatchesPairs(s: string, reps: seq<Replacement>, subs: seq<ViableSubstitution>)
    requires DistinctKeys(reps)
    requires multiset(subs) == multiset(ViableOf(s, reps))
    ensures ApplySubstitutions(s, subs) == ReplaceFrom(s, 0, reps)
  {
    var pairs := PairsOf(subs);
    forall q | q in pairs
      ensures q in reps
    {
      var k :| 0 <= k < |pairs| && pairs[k] == q;
      assert subs[k] in multiset(ViableOf(s, reps));
    }
    forall p | 0 <= p < |s|
      ensures LongestAt(s, p, reps) == LongestAt(s, p, pairs)
    {
      forall q | q in reps && |q.key| > 0 && MatchesAt(s, q.key, p)
        ensures q in pairs
      {
        var pos := Find(s, q.key, 0);
        assert pos.Some?;
        var v := ViableSubstitution(q.key, q.replacement, pos.value);
        assert v in multiset(subs);
        var k :| 0 <= k < |subs| && subs[k] == v;
        assert pairs[k] == q;
      }
      LongestAtAgree(s, p, reps, pairs);
    }
    ReplaceFromAgree(s, 0, reps, pairs);
  }

  /**
    `StrReplaceAll(s, replacements)`: the text with every leftmost-longest
    occurrence of a key replaced, without rescanning replaced text.
  */
  method StrReplaceAll(s: string, replacements: seq<Replacement>) returns (result: string)
    ensures ViableOf(s, replacements) == [] ==> result == s
    ensures DistinctKeys(replacements) ==> result == ReplaceFrom(s, 0, replacements).text
  {
    var subs := FindSubstitutions(s, replacements);
    result := ApplySubstitutions(s, subs).text;
    if ViableOf(s, replacements) == [] {
      assert |subs| == |multiset(subs)| == 0;
      NoViableSubstitutionKeepsText(s, PairsOf(subs));
    }
    if DistinctKeys(replacements) {
      ApplySubstitutionsMatchesPairs(s, replacements, subs);
    }
  }

  /**
    `StrReplaceAll(replacements, &target)`: replaces in place and returns the
    number of substitutions; with no viable substitution it returns 0 at once
    and leaves the target as it was.
  */
  method StrReplaceAllInPlace(replacements: seq<Replacement>, target: string)
    returns (count: nat, target': string)
    ensures ViableOf(target, replacements) == [] ==> count == 0 && target' == target
    ensures DistinctKeys(replacements) ==> Replaced(target', count) == ReplaceFrom(target, 0, replacements)
  {
    var subs := FindSubstitutions(target, replacements);
    if |subs| == 0 {
      assert |ViableOf(target, replacements)| == |multiset(ViableOf(target, replacements))| == 0;
      NoViableSubstitutionKeepsText(target, replacements);
      return 0, target;
    }
    var replaced := ApplySubstitutions(target, subs);
    count, target' := replaced.count, replaced.text;
    if DistinctKeys(replacements) {
      ApplySubstitutionsMatchesPairs(target, replacements, subs);
    }
  }

  /** When nothing matches from `i` on, the pass copies `s[i..]` and counts nothing. */
  lemma {:induction false} NoMatchCopies(s: string, i: nat, reps: seq<Replacement>)
    requires i <= |s|
    requires forall p :: i <= p < |s| ==> LongestAt(s, p, reps).None?
    ensures ReplaceFrom(s, i, reps) == Replaced(s[i..], 0)
    decreases |s| - i
  {
    if i < |s| {
      NoMatchCopies(s, i + 1, reps);
      assert s[i..] == [s[i]] + s[i + 1..];
    }
  }

  /** A key that matches somewhere makes a viable substitution. */
  lemma MatchIsViable(s: string, p: nat, reps: seq<Replacement>)
    requires LongestAt(s, p, reps).Some?
    ensures |ViableOf(s, reps)| > 0
  {
    LongestAtIsLongest(s, p, reps);
    var r := LongestAt(s, p, reps).value;
    var pos := Find(s, r.key, 0);
    assert pos.Some?;
    assert ViableSubstitution(r.key, r.replacement, pos.value) in ViableOf(s, reps);
  }

  /** When every non-empty key is absent from `s`, there is no viable substitution. */
  lemma NoFoundKeyNoViable(s: string, reps: seq<Replacement>)
    requires forall r :: r in reps && |r.key| > 0 ==> Find(s, r.key, 0).None?
    ensures ViableOf(s, reps) == []
  {
  }

  /** Without a viable substitution (every key empty or absent) the text is unchanged. */
  lemma NoViableSubstitutionKeepsText(s: string, reps: seq<Replacement>)
    requires ViableOf(s, reps) == []
    ensures ReplaceFrom(s, 0, reps) == Replaced(s, 0)
  {
    forall p | 0 <= p < |s|
      ensures LongestAt(s, p, reps).None?
    {
      if LongestAt(s, p, reps).Some? {
        MatchIsViable(s, p, reps);
      }
    }
    NoMatchCopies(s, 0, reps);
  }

  /**
    The count is zero exactly when no key occurs anywhere in `s[i..]`: the pass
    never skips over an occurrence without making a substitution first.
  */
  lemma CountZeroIffNoMatch(s: string, i: nat, reps: seq<Replacement>)
    requires i <= |s|
    ensures ReplaceFrom(s, i, reps).count == 0 <==> forall p :: i <= p < |s| ==> LongestAt(s, p, reps).None?
  {
    if forall p :: i <= p < |s| ==> LongestAt(s, p, reps).None? {
      NoMatchCopies(s, i, reps);
    } else {
      var p :| i <= p < |s| && LongestAt(s, p, reps).Some?;
      MatchIsCounted(s, i, p, reps);
    }
  }

  /** A key occurring at `p` makes the pass from any `i <= p` substitute something. */
  lemma {:induction false} MatchIsCounted(s: string, i: nat, p: nat, reps: seq<Replacement>)
    requires i <= p < |s| && LongestAt(s, p, reps).Some?
    ensures ReplaceFrom(s, i, reps).count > 0
    decreases p - i
  {
    match LongestAt(s, i, reps)
    case Some(r) =>
      assert ReplaceFrom(s, i, reps).count > 0 by {
        ChosenStep(s, i, reps, r);
      }
    case None =>
      assert ReplaceFrom(s, i, reps).count == ReplaceFrom(s, i + 1, reps).count by {
        SkippedStep(s, i, reps);
      }
      MatchIsCounted(s, i + 1, p, reps);
  }

  /**
    The order of the pairs does not matter when their keys are distinct: any
    permutation of the mapping replaces identically.
  */
  lemma OrderIrrelevant(s: string, a: seq<Replacement>, b: seq<Replacement>)
    requires DistinctKeys(a)
    requires multiset(a) == multiset(b)
    ensures ReplaceFrom(s, 0, a) == ReplaceFrom(s, 0, b)
  {
    forall q | q in b
      ensures q in a
    {
      assert q in multiset(b);
    }
    forall q | q in a
      ensures q in b
    {
      assert q in multiset(a);
    }
    forall p | 0 <= p < |s|
      ensures LongestAt(s, p, a) == LongestAt(s, p, b)
    {
      LongestAtAgree(s, p, a, b);
    }
    ReplaceFromAgree(s, 0, a, b);
  }

  /** Overlapping matches are replaced greedily: "aaa" with {aa -> x} gives "xa". */
  lemma GreedyExample()
    ensures ReplaceFrom("aaa", 0, [Replacement("aa", "x")]) == Replaced("xa", 1)
  {
    var reps := [Replacement("aa", "x")];
    assert LongestAt("aaa", 2, reps) == None;
    assert ReplaceFrom("aaa", 2, reps) == Replaced("a", 0);
    assert LongestAt("aaa", 0, reps) == Some(Replacement("aa", "x"));
  }

  /** Replacements are not recursive: "aaa" with {aa -> a} gives "aa". */
  lemma NonRecursiveExample()
    ensures ReplaceFrom("aaa", 0, [Replacement("aa", "a")]) == Replaced("aa", 1)
  {
    var reps := [Replacement("aa", "a")];
    assert LongestAt("aaa", 2, reps) == None;
    assert ReplaceFrom("aaa", 2, reps) == Replaced("a", 0);
    assert LongestAt("aaa", 0, reps) == Some(Replacement("aa", "a"));
  }

  /** The longer key wins at the same position: "aaa" with [{aa -> x}, {a -> X}] gives "xX". */
  lemma LongestWinsExample()
    ensures ReplaceFrom("aaa", 0, [Replacement("aa", "x"), Replacement("a", "X")]) == Replaced("xX", 2)
  {
    var a := [Replacement("aa", "x"), Replacement("a", "X")];
    assert ReplaceFrom("aaa", 3, a) == Replaced("", 0);
    assert LongestAt("aaa", 2, a) == Some(Replacement("a", "X"));
    assert ReplaceFrom("aaa", 2, a) == Replaced("X", 1);
    assert LongestAt("aaa", 0, a) == Some(Replacement("aa", "x"));
  }

  /** Listing the shorter key first changes nothing: [{a -> X}, {aa -> x}] also gives "xX". */
  lemma ListOrderExample()
    ensures ReplaceFrom("aaa", 0, [Replacement("a", "X"), Replacement("aa", "x")]) == Replaced("xX", 2)
  {
    var a := [Replacement("aa", "x"), Replacement("a", "X")];
    var b := [Replacement("a", "X"), Replacement("aa", "x")];
    LongestWinsExample();
    assert b == [a[1], a[0]];
    assert multiset(a) == multiset(b);
    OrderIrrelevant("aaa", a, b);
  }

  /**
    Pair lists with repeated keys, where every key is empty or absent from the
    text, have no viable substitution, so `StrReplaceAll` returns the text as
    it was: "" stays "" and "abc" stays "abc".
  */
  lemma EmptyOrAbsentKeysExample()
    ensures ViableOf("", [Replacement("", ""), Replacement("x", ""), Replacement("", "y"), Replacement("x", "y")]) == []
    ensures ViableOf("abc", [Replacement("", ""), Replacement("", "y"), Replacement("x", "")]) == []
  {
    NoFoundKeyNoViable("", [Replacement("", ""), Replacement("x", ""), Replacement("", "y"), Replacement("x", "y")]);
    assert Find("abc", "x", 0).None? by {
      forall q: nat | q < 3
        ensures !MatchesAt("abc", "x", q)
      {
        assert "abc"[q..q + 1][0] == "abc"[q];
      }
    }
    NoFoundKeyNoViable("abc", [Replacement("", ""), Replacement("", "y"), Replacement("x", "")]);
  }

  /** No non-empty key of `reps` starts with `c`. */
  predicate NoKeyStartsWith(reps: seq<Replacement>, c: char)
  {
    forall r :: r in reps && |r.key| > 0 ==> r.key[0] != c
  }

  /** Where no key starts with the current character, nothing is chosen. */
  lemma NothingChosenAt(s: string, i: nat, reps: seq<Replacement>)
    requires i < |s| && NoKeyStartsWith(reps, s[i])
    ensures LongestAt(s, i, reps).None?
  {
  }

  /** A stretch of text in which no key starts is copied as it is. */
  lemma {:induction false} PlainRunCopies(s: string, i: nat, j: nat, reps: seq<Replacement>)
    requires i <= j <= |s|
    requires forall p :: i <= p < j ==> NoKeyStartsWith(reps, s[p])
    ensures ReplaceFrom(s, i, reps) == Replaced(s[i..j] + ReplaceFrom(s, j, reps).text, ReplaceFrom(s, j, reps).count)
    decreases j - i
  {
    if i < j {
      NothingChosenAt(s, i, reps);
      SkippedStep(s, i, reps);
      PlainRunCopies(s, i + 1, j, reps);
      assert s[i..j] == [s[i]] + s[i + 1..j];
    } else {
      assert s[i..j] == [];
    }
  }

  /** When exactly one pair's key occurs at `p`, that pair is chosen. */
  lemma OnlyMatchChosen(s: string, p: nat, reps: seq<Replacement>, k: nat)
    requires k < |reps| && |reps[k].key| > 0 && MatchesAt(s, reps[k].key, p)
    requires forall j :: 0 <= j < |reps| && j != k && |reps[j].key| > 0 ==> !MatchesAt(s, reps[j].key, p)
    ensures LongestAt(s, p, reps) == Some(reps[k])
  {
    LongestAtIsLongest(s, p, reps);
    var r := LongestAt(s, p, reps);
    assert reps[k] in reps;
    var j :| 0 <= j < |reps| && reps[j] == r.value;
  }

  /** A key whose `d`-th character differs from `s[p + d]` does not occur at `p`. */
  lemma CharMismatch(s: string, key: string, p: nat, d: nat)
    requires d < |key| && p + d < |s| && s[p + d] != key[d]
    ensures !MatchesAt(s, key, p)
  {
  }

  /** The text of the in-place replacement example, piece by piece. */
  const WhoText: string := "$who" + " bought " + "$count" + " " + "#Noun" + ". Thanks " + "$who" + "!"

  /** The mapping of the in-place replacement example. */
  const WhoReps: seq<Replacement> := [Replacement("$count", "5"), Replacement("$who", "Bob"), Replacement("#Noun", "Apples")]

  /** The expected result of the example, piece by piece. */
  const WhoResult: string := "Bob" + (" bought " + ("5" + (" " + ("Apples" + (". Thanks " + ("Bob" + "!"))))))

  /** Only '$' and '#' start a key of the example mapping. */
  lemma WhoKeysStart(c: char)
    requires c != '$' && c != '#'
    ensures NoKeyStartsWith(WhoReps, c)
  {
    assert forall r :: r in WhoReps ==> r.key[0] == '$' || r.key[0] == '#';
  }

  /** One step of the pass at a position where no pair is chosen. */
  lemma SkippedStep(s: string, i: nat, reps: seq<Replacement>)
    requires i < |s| && LongestAt(s, i, reps).None?
    ensures ReplaceFrom(s, i, reps) == Replaced([s[i]] + ReplaceFrom(s, i + 1, reps).text, ReplaceFrom(s, i + 1, reps).count)
  {
  }

  /** One step of the pass at a position where a pair is chosen. */
  lemma ChosenStep(s: string, i: nat, reps: seq<Replacement>, r: Replacement)
    requires i < |s| && LongestAt(s, i, reps) == Some(r)
    ensures i + |r.key| <= |s|
    ensures ReplaceFrom(s, i, reps) ==
      Replaced(r.replacement + ReplaceFrom(s, i + |r.key|, reps).text, ReplaceFrom(s, i + |r.key|, reps).count + 1)
  {
    var m := LongestAt(s, i, reps);
    assert m.value == r;
  }

  /** The example from position 37 on: the final "!" is kept. */
  lemma WhoFrom37(s: string, reps: seq<Replacement>)
    requires s == WhoText && reps == WhoReps
    ensures ReplaceFrom(s, 37, reps) == Replaced("!", 0)
  {
    assert |s| == 38 && s[37] == '!';
    WhoKeysStart(s[37]);
    NothingChosenAt(s, 37, reps);
    assert ReplaceFrom(s, 38, reps) == Replaced("", 0);
  }

  /** The example from position 33 on: "$who!" becomes "Bob!". */
  lemma WhoFrom33(s: string, reps: seq<Replacement>)
    requires s == WhoText && reps == WhoReps
    ensures ReplaceFrom(s, 33, reps) == Replaced("Bob" + "!", 1)
  {
    assert LongestAt(s, 33, reps) == Some(reps[1]) by {
      assert MatchesAt(s, reps[1].key, 33) by { assert s[33..37] == "$who"; }
      CharMismatch(s, reps[2].key, 33, 0);
      OnlyMatchChosen(s, 33, reps, 1);
    }
    ChosenStep(s, 33, reps, reps[1]);
    WhoFrom37(s, reps);
  }

  /** The example from position 24 on: ". Thanks $who!" becomes ". Thanks Bob!". */
  lemma WhoFrom24(s: string, reps: seq<Replacement>)
    requires s == WhoText && reps == WhoReps
    ensures ReplaceFrom(s, 24, reps) == Replaced(". Thanks " + ("Bob" + "!"), 1)
  {
    assert forall p :: 24 <= p < 33 ==> NoKeyStartsWith(reps, s[p]) by {
      forall p | 24 <= p < 33
        ensures NoKeyStartsWith(reps, s[p])
      {
        WhoKeysStart(s[p]);
      }
    }
    assert s[24..33] == ". Thanks ";
    PlainRunCopies(s, 24, 33, reps);
    WhoFrom33(s, reps);
  }

  /** The example from position 19 on: "#Noun. Thanks $who!" becomes "Apples. Thanks Bob!". */
  lemma WhoFrom19(s: string, reps: seq<Replacement>)
    requires s == WhoText && reps == WhoReps
    ensures ReplaceFrom(s, 19, reps) == Replaced("Apples" + (". Thanks " + ("Bob" + "!")), 2)
  {
    assert LongestAt(s, 19, reps) == Some(reps[2]) by {
      assert MatchesAt(s, reps[2].key, 19) by { assert s[19..24] == "#Noun"; }
      CharMismatch(s, reps[0].key, 19, 0);
      CharMismatch(s, reps[1].key, 19, 0);
      OnlyMatchChosen(s, 19, reps, 2);
    }
    ChosenStep(s, 19, reps, reps[2]);
    WhoFrom24(s, reps);
  }

  /** The example from position 18 on: the space before "#Noun" is kept. */
  lemma WhoFrom18(s: string, reps: seq<Replacement>)
    requires s == WhoText && reps == WhoReps
    ensures ReplaceFrom(s, 18, reps) == Replaced(" " + ("Apples" + (". Thanks " + ("Bob" + "!"))), 2)
  {
    assert s[18..19] == " ";
    assert forall p :: 18 <= p < 19 ==> NoKeyStartsWith(reps, s[p]) by {
      WhoKeysStart(s[18]);
    }
    PlainRunCopies(s, 18, 19, reps);
    WhoFrom19(s, reps);
  }

  /** The example from position 12 on: "$count #Noun. Thanks $who!" becomes "5 Apples. Thanks Bob!". */
  lemma WhoFrom12(s: string, reps: seq<Replacement>)
    requires s == WhoText && reps == WhoReps
    ensures ReplaceFrom(s, 12, reps) == Replaced("5" + (" " + ("Apples" + (". Thanks " + ("Bob" + "!")))), 3)
  {
    assert LongestAt(s, 12, reps) == Some(reps[0]) by {
      assert MatchesAt(s, reps[0].key, 12) by { assert s[12..18] == "$count"; }
      CharMismatch(s, reps[1].key, 12, 1);
      CharMismatch(s, reps[2].key, 12, 0);
      OnlyMatchChosen(s, 12, reps, 0);
    }
    ChosenStep(s, 12, reps, reps[0]);
    WhoFrom18(s, reps);
  }

  /** The example from position 4 on: " bought $count ..." becomes " bought 5 Apples. Thanks Bob!". */
  lemma WhoFrom4(s: string, reps: seq<Replacement>)
    requires s == WhoText && reps == WhoReps
    ensures ReplaceFrom(s, 4, reps) == Replaced(" bought " + ("5" + (" " + ("Apples" + (". Thanks " + ("Bob" + "!"))))), 3)
  {
    assert forall p :: 4 <= p < 12 ==> NoKeyStartsWith(reps, s[p]) by {
      forall p | 4 <= p < 12
        ensures NoKeyStartsWith(reps, s[p])
      {
        WhoKeysStart(s[p]);
      }
    }
    assert s[4..12] == " bought ";
    PlainRunCopies(s, 4, 12, reps);
    WhoFrom12(s, reps);
  }

  /** The whole example, piece by piece. */
  lemma WhoFrom0(s: string, reps: seq<Replacement>)
    requires s == WhoText && reps == WhoReps
    ensures ReplaceFrom(s, 0, reps) == Replaced(WhoResult, 4)
  {
    assert LongestAt(s, 0, reps) == Some(reps[1]) by {
      assert MatchesAt(s, reps[1].key, 0) by { assert s[0..4] == "$who"; }
      CharMismatch(s, reps[0].key, 0, 1);
      CharMismatch(s, reps[2].key, 0, 0);
      OnlyMatchChosen(s, 0, reps, 1);
    }
    ChosenStep(s, 0, reps, reps[1]);
    WhoFrom4(s, reps);
  }

  /**
    The in-place count is the number of substitutions made: four for
    "$who bought $count #Noun. Thanks $who!", which becomes
    "Bob bought 5 Apples. Thanks Bob!" (`WhoText` and `WhoResult`).
  */
  lemma ManyReplacementsExample()
    ensures ReplaceFrom(WhoText, 0, WhoReps) == Replaced(WhoResult, 4)
  {
    WhoFrom0(WhoText, WhoReps);
  }
}
