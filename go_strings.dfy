/** The few functions of Go's `strings` package that the upload handler
    calls, stated on `string` (a `seq<char>`), together with the facts about
    them that the rest of the model relies on. */
module GoStrings {

  /** `strings.ReplaceAll(s, string(c), "")`: every occurrence of `c` deleted,
      everything else kept in order. */
  function RemoveAll(s: string, c: char): (r: string)
    ensures |r| <= |s|
    ensures forall d :: d in r ==> d in s && d != c
  {
    if s == [] then [] else (if s[0] == c then [] else [s[0]]) + RemoveAll(s[1..], c)
  }

  /** Deleting a character distributes over concatenation. */
  lemma {:induction false} RemoveAllAppend(a: string, b: string, c: char)
    ensures RemoveAll(a + b, c) == RemoveAll(a, c) + RemoveAll(b, c)
  {
    if a == [] {
      assert a + b == b;
    } else {
      assert (a + b)[0] == a[0];
      assert (a + b)[1..] == a[1..] + b;
      RemoveAllAppend(a[1..], b, c);
    }
  }

  /** `strings.Repeat(s, n)`. */
  function Repeat(s: string, n: nat): string
  {
    if n == 0 then "" else s + Repeat(s, n - 1)
  }

  /** `strings.TrimRight(s, cutset)`: the longest prefix of `s` that does not
      end in a character of `cutset`; only cutset characters are dropped. */
  function TrimRight(s: string, cutset: set<char>): (r: string)
    ensures r <= s
    ensures r == [] || r[|r| - 1] !in cutset
    ensures forall k :: |r| <= k < |s| ==> s[k] in cutset
  {
    if s != [] && s[|s| - 1] in cutset then TrimRight(s[..|s| - 1], cutset) else s
  }

  /** `strings.Join(elems, sep)`. */
  function Join(elems: seq<string>, sep: string): string
  {
    if |elems| == 0 then ""
    else if |elems| == 1 then elems[0]
    else elems[0] + sep + Join(elems[1..], sep)
  }

  /** `strings.Count(s, string(c))`: the number of occurrences of `c`. */
  function Count(s: string, c: char): nat
  {
    if s == [] then 0 else (if s[0] == c then 1 else 0) + Count(s[1..], c)
  }

  lemma {:induction false} CountAppend(a: string, b: string, c: char)
    ensures Count(a + b, c) == Count(a, c) + Count(b, c)
  {
    if a == [] {
      assert a + b == b;
    } else {
      assert (a + b)[0] == a[0];
      assert (a + b)[1..] == a[1..] + b;
      CountAppend(a[1..], b, c);
    }
  }

  lemma {:induction false} CountAbsent(s: string, c: char)
    requires c !in s
    ensures Count(s, c) == 0
  {
    if s != [] {
      assert c !in s[1..] by {
        forall k | 0 <= k < |s| - 1 ensures s[1..][k] != c {
          assert s[1..][k] == s[k + 1];
        }
      }
      CountAbsent(s[1..], c);
    }
  }

  /** The occurrences of `c` in all of `elems` together. */
  function CountAll(elems: seq<string>, c: char): nat
  {
    if elems == [] then 0 else Count(elems[0], c) + CountAll(elems[1..], c)
  }

  /** A separator without `c` adds no occurrence of `c` to a join. */
  lemma {:induction false} CountJoin(elems: seq<string>, sep: string, c: char)
    requires Count(sep, c) == 0
    ensures Count(Join(elems, sep), c) == CountAll(elems, c)
  {
    if |elems| == 1 {
      assert elems[1..] == [];
    } else if |elems| > 1 {
      CountAppend(elems[0] + sep, Join(elems[1..], sep), c);
      CountAppend(elems[0], sep, c);
      CountJoin(elems[1..], sep, c);
    }
  }

  /** `strings.Split(s, ", ")`: the pieces between the left-to-right,
      non-overlapping occurrences of the separator; never empty. */
  function SplitCommaSpace(s: string): (r: seq<string>)
    ensures |r| >= 1
    decreases |s|
  {
    if |s| < 2 then [s]
    else if s[0] == ',' && s[1] == ' ' then [""] + SplitCommaSpace(s[2..])
    else
      var rest := SplitCommaSpace(s[1..]);
      [[s[0]] + rest[0]] + rest[1..]
  }

  /** A piece without a space cannot hide the separator. */
  lemma {:induction false} SplitNoSpace(h: string)
    requires ' ' !in h
    ensures SplitCommaSpace(h) == [h]
  {
    if |h| >= 2 {
      assert h[1] in h;
      assert ' ' !in h[1..];
      SplitNoSpace(h[1..]);
      assert [h[0]] + h[1..] == h;
    }
  }

  /** Splitting `h + ", " + t` stops at the separator after `h`. */
  lemma {:induction false} SplitAfterPiece(h: string, t: string)
    requires ' ' !in h
    ensures SplitCommaSpace(h + ", " + t) == [h] + SplitCommaSpace(t)
    decreases |h|
  {
    var s := h + ", " + t;
    if h == [] {
      assert s[2..] == t;
    } else {
      assert s[0] == h[0];
      assert s[1] != ' ' by {
        if |h| > 1 { assert s[1] == h[1] && h[1] in h; } else { assert s[1] == ','; }
      }
      assert ' ' !in h[1..];
      assert s[1..] == h[1..] + ", " + t;
      SplitAfterPiece(h[1..], t);
      assert [h[0]] + h[1..] == h;
    }
  }

  /** Joining pieces free of spaces with ", " and splitting again gives the
      pieces back. */
  lemma {:induction false} SplitJoin(elems: seq<string>)
    requires |elems| >= 1
    requires forall i :: 0 <= i < |elems| ==> ' ' !in elems[i]
    ensures SplitCommaSpace(Join(elems, ", ")) == elems
  {
    if |elems| == 1 {
      SplitNoSpace(elems[0]);
    } else {
      SplitJoin(elems[1..]);
      SplitAfterPiece(elems[0], Join(elems[1..], ", "));
      assert [elems[0]] + elems[1..] == elems;
    }
  }
}
