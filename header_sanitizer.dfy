/** The header sanitisation of the upload handler: every header cell of the
    first CSV record loses its spaces, periods and question marks, and the
    cleaned cells are written back into that record. */
module HeaderSanitizer {
  import opened GoStrings

  /** The three characters the handler deletes from a header cell. */
  predicate Unsafe(c: char)
  {
    c == ' ' || c == '.' || c == '?'
  }

  /** A header cell that holds none of the deleted characters. */
  predicate Safe(h: string)
  {
    forall i :: 0 <= i < |h| ==> !Unsafe(h[i])
  }

  /** One header cell after the three `ReplaceAll` calls, in the handler's order
      (spaces, then periods, then question marks). */
  function Sanitize(h: string): (r: string)
    ensures Safe(r)
    ensures |r| <= |h|
  {
    var r := RemoveAll(RemoveAll(RemoveAll(h, ' '), '.'), '?');
    assert forall i :: 0 <= i < |r| ==> r[i] in r;
    r
  }

  /** Reference definition: a single left-to-right pass keeping every character
      that is not deleted. */
  function KeepSafe(h: string): string
  {
    if h == [] then [] else (if Unsafe(h[0]) then [] else [h[0]]) + KeepSafe(h[1..])
  }

  /** The three passes do the same as one pass that drops all three characters. */
  lemma {:induction false} SanitizeIsKeepSafe(h: string)
    ensures Sanitize(h) == KeepSafe(h)
  {
    if h != [] {
      var c, t := h[0], h[1..];
      var p1 := if c == ' ' then [] else [c];
      var p2 := if c == ' ' || c == '.' then [] else [c];
      var p3 := if Unsafe(c) then [] else [c];
      assert RemoveAll(h, ' ') == p1 + RemoveAll(t, ' ');
      RemoveAllAppend(p1, RemoveAll(t, ' '), '.');
      assert RemoveAll(p1, '.') == p2;
      RemoveAllAppend(p2, RemoveAll(RemoveAll(t, ' '), '.'), '?');
      assert RemoveAll(p2, '?') == p3;
      SanitizeIsKeepSafe(t);
    }
  }

  /** `a` is `b` with some characters deleted (order kept). */
  predicate IsSubsequence(a: string, b: string)
    decreases |b|
  {
    a == [] || (b != [] && ((a[0] == b[0] && IsSubsequence(a[1..], b[1..])) || IsSubsequence(a, b[1..])))
  }

  lemma {:induction false} KeepSafeSubsequence(h: string)
    ensures IsSubsequence(KeepSafe(h), h)
  {
    if h != [] {
      KeepSafeSubsequence(h[1..]);
      if Unsafe(h[0]) {
        assert KeepSafe(h) == KeepSafe(h[1..]);
      } else {
        assert KeepSafe(h)[0] == h[0] && KeepSafe(h)[1..] == KeepSafe(h[1..]);
      }
    }
  }

  /** Sanitising only deletes: the result is a subsequence of the input. */
  lemma SanitizeSubsequence(h: string)
    ensures IsSubsequence(Sanitize(h), h)
  {
    SanitizeIsKeepSafe(h);
    KeepSafeSubsequence(h);
  }

  lemma {:induction false} KeepSafeCount(h: string, c: char)
    ensures Count(KeepSafe(h), c) == if Unsafe(c) then 0 else Count(h, c)
  {
    if h != [] {
      var p := if Unsafe(h[0]) then [] else [h[0]];
      CountAppend(p, KeepSafe(h[1..]), c);
      KeepSafeCount(h[1..], c);
    }
  }

  /** Exactly the three characters disappear; every other character (a
      backtick included) keeps all its occurrences. */
  lemma SanitizeCount(h: string, c: char)
    ensures Count(Sanitize(h), c) == if Unsafe(c) then 0 else Count(h, c)
  {
    SanitizeIsKeepSafe(h);
    KeepSafeCount(h, c);
  }

  lemma {:induction false} KeepSafeOfSafe(h: string)
    requires Safe(h)
    ensures KeepSafe(h) == h
  {
    if h != [] {
      assert Safe(h[1..]) by {
        forall i | 0 <= i < |h| - 1 ensures !Unsafe(h[1..][i]) {
          assert h[1..][i] == h[i + 1];
        }
      }
      KeepSafeOfSafe(h[1..]);
      assert [h[0]] + h[1..] == h;
    }
  }

  /** A header is left unchanged exactly when it holds none of the three
      characters. */
  lemma SanitizeFixedPoint(h: string)
    ensures Sanitize(h) == h <==> Safe(h)
  {
    if Safe(h) {
      SanitizeIsKeepSafe(h);
      KeepSafeOfSafe(h);
    }
  }

  /** Sanitising twice is sanitising once. */
  lemma SanitizeIdempotent(h: string)
    ensures Sanitize(Sanitize(h)) == Sanitize(h)
  {
    SanitizeFixedPoint(Sanitize(h));
  }

  lemma {:induction false} KeepSafeAppend(a: string, b: string)
    ensures KeepSafe(a + b) == KeepSafe(a) + KeepSafe(b)
  {
    if a == [] {
      assert a + b == b;
    } else {
      assert (a + b)[0] == a[0];
      assert (a + b)[1..] == a[1..] + b;
      KeepSafeAppend(a[1..], b);
    }
  }

  /** A deleted character between two clean words just disappears: "Pump ID"
      becomes "PumpID", "Flow?" becomes "Flow". */
  lemma SanitizeJoinsWords(a: string, c: char, b: string)
    requires Safe(a) && Unsafe(c) && Safe(b)
    ensures Sanitize(a + [c] + b) == a + b
  {
    SanitizeIsKeepSafe(a + [c] + b);
    KeepSafeAppend(a + [c], b);
    KeepSafeAppend(a, [c]);
    KeepSafeOfSafe(a);
    KeepSafeOfSafe(b);
  }

  /** A header with a period and a space. */
  lemma SanitizeDottedName()
    ensures Sanitize("A.B C") == "ABC"
  {
  }

  /** A backtick survives sanitising, so it can close the quoting that the
      insert builder puts around the column name. */
  lemma SanitizeKeepsBacktick()
    ensures Sanitize("a` b") == "a`b"
  {
  }

  /** The whole header row, cell by cell, positions kept. */
  function SanitizeAll(headers: seq<string>): (r: seq<string>)
    ensures |r| == |headers|
    ensures forall i :: 0 <= i < |r| ==> Safe(r[i])
  {
    seq(|headers|, i requires 0 <= i < |headers| => Sanitize(headers[i]))
  }

  /** Lines 100-107: `headers` is the first record itself, so the loop that
      writes `headers[i]` rewrites `records[0]` in place; the other records
      are separate arrays and stay as they were. */
  method SanitizeHeaderRow(records: seq<array<string>>) returns (headers: array<string>)
    requires |records| > 0
    requires forall j :: 0 < j < |records| ==> records[j] != records[0]
    modifies records[0]
    ensures headers == records[0]
    ensures headers[..] == SanitizeAll(old(records[0][..]))
    ensures forall j :: 0 < j < |records| ==> records[j][..] == old(records[j][..])
  {
    headers := records[0];
    for i := 0 to headers.Length
      invariant forall k :: 0 <= k < i ==> headers[k] == Sanitize(old(records[0][k]))
      invariant forall k :: i <= k < headers.Length ==> headers[k] == old(records[0][k])
    {
      var header := records[0][i];
      header := RemoveAll(header, ' ');
      header := RemoveAll(header, '.');
      header := RemoveAll(header, '?');
      headers[i] := header;
    }
  }
}
