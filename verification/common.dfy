/** Machine types and the Option wrapper shared by every module of the model. */
module Common {

  /** An 8-bit byte (`char` / `unsigned char` in the source). */
  type byte = b: int | 0 <= b < 0x100

  /** A `uint32_t`. */
  type u32 = x: int | 0 <= x < 0x1_0000_0000

  /** An `int` (32-bit, two's complement). */
  type int32 = x: int | -0x8000_0000 <= x < 0x8000_0000

  /** A `short` (16-bit, two's complement). */
  type int16 = x: int | -0x8000 <= x < 0x8000

  /** An `unsigned short`. */
  type u16 = x: int | 0 <= x < 0x1_0000

  /** A value that may be absent (`npos`, a failed parse). */
  datatype Option<T> = None | Some(value: T)

  /**
    `StrSplit(s, ByAnyChar(seps))` with empty pieces kept: the pieces between
    separator characters, so one more piece than there are separators.
  */
  function SplitBy(s: string, seps: set<char>): (parts: seq<string>)
    ensures |parts| >= 1
    ensures forall k, c :: 0 <= k < |parts| && c in seps ==> c !in parts[k]
  {
    if |s| == 0 then [""]
    else
      var rest := SplitBy(s[1..], seps);
      if s[0] in seps then [""] + rest
      else [[s[0]] + rest[0]] + rest[1..]
  }

  /** The pieces written one after another, with nothing between them. */
  function Flatten(parts: seq<string>): (r: string)
    ensures |parts| == 0 ==> r == ""
  {
    if |parts| == 0 then "" else parts[0] + Flatten(parts[1..])
  }

  /** `s` with every character of `seps` removed. */
  function Without(s: string, seps: set<char>): (r: string)
    ensures |r| <= |s|
  {
    if |s| == 0 then ""
    else if s[0] in seps then Without(s[1..], seps)
    else [s[0]] + Without(s[1..], seps)
  }

  /** Flattening distributes over concatenation of piece lists. */
  lemma {:induction false} FlattenConcat(a: seq<string>, b: seq<string>)
    ensures Flatten(a + b) == Flatten(a) + Flatten(b)
    decreases |a|
  {
    if |a| > 0 {
      assert (a + b)[0] == a[0] && (a + b)[1..] == a[1..] + b;
      FlattenConcat(a[1..], b);
    } else {
      assert a + b == b;
    }
  }

  /** A non-empty sequence is its front followed by its last element. */
  lemma InitPlusLast<T>(s: seq<T>)
    requires |s| > 0
    ensures s == s[..|s| - 1] + [s[|s| - 1]]
  {
  }

  /** Flattening a list is flattening all but its last piece, then that piece. */
  lemma FlattenLast(parts: seq<string>)
    requires |parts| > 0
    ensures Flatten(parts) == Flatten(parts[..|parts| - 1]) + parts[|parts| - 1]
  {
    var last := parts[|parts| - 1];
    InitPlusLast(parts);
    FlattenConcat(parts[..|parts| - 1], [last]);
    assert Flatten([last]) == last + Flatten([]);
  }

  /** Removing characters distributes over concatenation. */
  lemma {:induction false} WithoutConcat(a: string, b: string, seps: set<char>)
    ensures Without(a + b, seps) == Without(a, seps) + Without(b, seps)
    decreases |a|
  {
    if |a| > 0 {
      assert (a + b)[0] == a[0] && (a + b)[1..] == a[1..] + b;
      WithoutConcat(a[1..], b, seps);
    } else {
      assert a + b == b;
    }
  }

  /** Removing one set of characters and then another removes their union. */
  lemma {:induction false} WithoutTwice(s: string, first: set<char>, second: set<char>)
    ensures Without(Without(s, first), second) == Without(s, first + second)
    decreases |s|
  {
    if |s| > 0 {
      WithoutTwice(s[1..], first, second);
      if s[0] !in first {
        assert ([s[0]] + Without(s[1..], first))[1..] == Without(s[1..], first);
      }
    }
  }

  /** The pieces of a split, written back to back, are the text without its separators. */
  lemma {:induction false} FlattenSplit(s: string, seps: set<char>)
    ensures Flatten(SplitBy(s, seps)) == Without(s, seps)
    decreases |s|
  {
    if |s| > 0 {
      var rest := SplitBy(s[1..], seps);
      FlattenSplit(s[1..], seps);
      if s[0] in seps {
        assert ([""] + rest)[1..] == rest;
      } else {
        var parts := [[s[0]] + rest[0]] + rest[1..];
        assert parts[1..] == rest[1..];
        assert Flatten(rest) == rest[0] + Flatten(rest[1..]);
      }
    }
  }

  /** Two sequences that agree on their first `k` elements have the same prefix of length `k`. */
  lemma SameFront<T>(a: seq<T>, b: seq<T>, k: nat)
    requires k <= |a| && k <= |b|
    requires forall i :: 0 <= i < k ==> a[i] == b[i]
    ensures a[..k] == b[..k]
  {
  }

  /** Two sequences of one length that agree from index `k` on have the same suffix from `k`. */
  lemma SameBack<T>(a: seq<T>, b: seq<T>, k: nat)
    requires |a| == |b| && k <= |a|
    requires forall i :: k <= i < |a| ==> a[i] == b[i]
    ensures a[k..] == b[k..]
  {
  }
}
