/** The statement text of the upload handler: a placeholder list, the header
    cells quoted with backticks, and one `INSERT INTO datapoints` statement
    whose first column is always `projectID`. */
module InsertBuilder {
  import opened GoStrings
  import opened HeaderSanitizer

  /** The separator of both lists of the statement. */
  const Separator := ", "
  /** One placeholder. */
  const Mark := "?"

  /** The characters `strings.TrimRight` strips from the repeated "?, ". */
  const PlaceholderCutset: set<char> := {',', ' '}

  /** `strings.TrimRight(strings.Repeat("?, ", n), ", ")`. */
  function Placeholders(n: nat): string
  {
    TrimRight(Repeat(Mark + Separator, n), PlaceholderCutset)
  }

  /** Reference list for a placeholder list: `n` separate question marks. */
  function Marks(n: nat): (r: seq<string>)
    ensures |r| == n
    ensures forall i :: 0 <= i < n ==> r[i] == Mark
  {
    seq(n, _ => Mark)
  }

  lemma {:induction false} RepeatIsMarks(n: nat)
    requires n >= 1
    ensures Repeat(Mark + Separator, n) == Join(Marks(n), Separator) + Separator
  {
    if n == 1 {
      assert Marks(1) == [Mark];
    } else {
      RepeatIsMarks(n - 1);
      assert Marks(n)[1..] == Marks(n - 1);
    }
  }

  /** A join whose last piece ends in `c` ends in `c`. */
  lemma {:induction false} JoinEndsWith(elems: seq<string>, sep: string, c: char)
    requires |elems| >= 1 && |elems[|elems| - 1]| >= 1
    requires elems[|elems| - 1][|elems[|elems| - 1]| - 1] == c
    ensures |Join(elems, sep)| >= 1 && Join(elems, sep)[|Join(elems, sep)| - 1] == c
  {
    if |elems| > 1 {
      JoinEndsWith(elems[1..], sep, c);
    }
  }

  lemma {:induction false} CountMarks(n: nat)
    ensures CountAll(Marks(n), '?') == n
  {
    if n > 0 {
      assert Marks(n)[1..] == Marks(n - 1);
      CountMarks(n - 1);
    }
  }

  /** Line 110 gives exactly `n` question marks separated by ", ", with no
      trailing comma or space, and the empty string for `n == 0`. */
  lemma PlaceholdersAreMarks(n: nat)
    ensures Placeholders(n) == Join(Marks(n), Separator)
    ensures Count(Placeholders(n), '?') == n
    ensures Placeholders(n) == "" <==> n == 0
    ensures n > 0 ==> Placeholders(n)[|Placeholders(n)| - 1] == '?'
  {
    var j := Join(Marks(n), Separator);
    if n >= 1 {
      RepeatIsMarks(n);
      JoinEndsWith(Marks(n), Separator, '?');
      var s, r := j + Separator, Placeholders(n);
      assert s[|j| - 1] == '?';
      assert r == s[..|j|] == j;
    }
    CountJoin(Marks(n), Separator, '?');
    CountMarks(n);
  }

  /** Line 115: one header cell quoted as a column identifier. */
  function Escape(h: string): string
  {
    "`" + h + "`"
  }

  function Escaped(headers: seq<string>): seq<string>
  {
    seq(|headers|, i requires 0 <= i < |headers| => Escape(headers[i]))
  }

  /** The statement's column list: the fixed project column, then every
      header cell quoted, in header order. */
  function ColumnNames(headers: seq<string>): seq<string>
  {
    [ProjectColumn] + Escaped(headers)
  }

  /** The pieces of the format string of line 118,
      "INSERT INTO datapoints (projectID, %s) VALUES (?, %s)". */
  const InsertInto := "INSERT INTO datapoints ("
  const ProjectColumn := "projectID"
  const ValuesClause := ") VALUES ("
  const Close := ")"
  const StatementHead := InsertInto + ProjectColumn + Separator
  const StatementMiddle := ValuesClause + Mark + Separator

  /** The `fmt.Sprintf` of line 118. */
  function Statement(columnList: string, placeholders: string): string
  {
    StatementHead + columnList + StatementMiddle + placeholders + Close
  }

  /** The statement built from a (sanitised) header row. */
  function InsertQuery(headers: seq<string>): string
  {
    Statement(Join(Escaped(headers), Separator), Placeholders(|headers|))
  }

  /** Lines 113-116: the quoted headers, filled in by index. */
  method EscapeHeaders(headers: array<string>) returns (escaped: array<string>)
    ensures escaped.Length == headers.Length
    ensures escaped[..] == Escaped(headers[..])
  {
    escaped := new string[headers.Length];
    for i := 0 to headers.Length
      invariant forall k :: 0 <= k < i ==> escaped[k] == Escape(headers[k])
    {
      escaped[i] := Escape(headers[i]);
    }
  }

  /** For a non-empty header row the statement names `projectID` and every
      quoted header, and lists one placeholder per named column. */
  lemma QueryShape(headers: seq<string>)
    requires |headers| > 0
    ensures InsertQuery(headers)
         == InsertInto + Join(ColumnNames(headers), Separator) + ValuesClause
            + Join(Marks(|headers| + 1), Separator) + Close
    ensures |ColumnNames(headers)| == |Marks(|headers| + 1)| == |headers| + 1
  {
    var n := |headers|;
    var cols, marks := Join(Escaped(headers), Separator), Placeholders(n);
    assert Join(ColumnNames(headers), Separator) == ProjectColumn + Separator + cols by {
      assert ColumnNames(headers)[1..] == Escaped(headers);
    }
    assert Join(Marks(n + 1), Separator) == Mark + Separator + marks by {
      assert Marks(n + 1)[1..] == Marks(n);
      PlaceholdersAreMarks(n);
    }
  }

  /** With no header cell the statement keeps its dangling separators:
      "INSERT INTO datapoints (projectID, ) VALUES (?, )". */
  lemma EmptyHeaderQuery()
    ensures InsertQuery([]) == StatementHead + StatementMiddle + Close
  {
    assert Escaped([]) == [];
    PlaceholdersAreMarks(0);
  }

  lemma {:induction false} NoMarkInColumns(headers: seq<string>)
    requires forall i :: 0 <= i < |headers| ==> Safe(headers[i])
    ensures CountAll(Escaped(headers), '?') == 0
  {
    if headers != [] {
      var h := headers[0];
      assert '?' !in Escape(h) by {
        forall k | 0 <= k < |Escape(h)| ensures Escape(h)[k] != '?' {
          if 0 < k < |h| + 1 { assert Escape(h)[k] == h[k - 1]; }
        }
      }
      CountAbsent(Escape(h), '?');
      assert Escaped(headers)[1..] == Escaped(headers[1..]);
      NoMarkInColumns(headers[1..]);
    }
  }

  /** The fixed text of the statement holds one placeholder, the one for
      `projectID`, in its middle part. */
  lemma HeadHasNoMark()
    ensures Count(StatementHead, '?') == 0
  {
    assert '?' !in StatementHead;
    CountAbsent(StatementHead, '?');
  }

  lemma MiddleHasOneMark()
    ensures Count(StatementMiddle, '?') == 1
  {
    assert Count(ValuesClause, '?') == 0 by {
      assert '?' !in ValuesClause;
      CountAbsent(ValuesClause, '?');
    }
    CountAppend(ValuesClause + Mark, Separator, '?');
    CountAppend(ValuesClause, Mark, '?');
  }

  /** The statement holds the placeholders of its two lists and one more. */
  lemma StatementMarks(columnList: string, placeholders: string)
    ensures Count(Statement(columnList, placeholders), '?') == Count(columnList, '?') + 1 + Count(placeholders, '?')
  {
    HeadHasNoMark();
    MiddleHasOneMark();
    var a, b, c, d := StatementHead, columnList, StatementMiddle, placeholders;
    CountAppend(a + b + c + d, Close, '?');
    CountAppend(a + b + c, d, '?');
    CountAppend(a + b, c, '?');
    CountAppend(a, b, '?');
  }

  /** Because sanitising removes every `?`, the statement built from the
      sanitised header row has exactly one placeholder per column: the number
      of header cells plus one for `projectID`. */
  lemma QueryPlaceholderCount(raw: seq<string>)
    ensures Count(InsertQuery(SanitizeAll(raw)), '?') == |raw| + 1
  {
    var headers := SanitizeAll(raw);
    assert Count(Join(Escaped(headers), Separator), '?') == 0 by {
      assert Count(Separator, '?') == 0;
      CountJoin(Escaped(headers), Separator, '?');
      NoMarkInColumns(headers);
    }
    PlaceholdersAreMarks(|headers|);
    StatementMarks(Join(Escaped(headers), Separator), Placeholders(|headers|));
  }

  /** The column list of the statement built from the sanitised header row can
      be split at ", " back into `projectID` and the quoted headers, position
      by position: sanitising removed every space, so no header can contain the
      separator. */
  lemma ColumnListReadBack(raw: seq<string>)
    ensures SplitCommaSpace(Join(ColumnNames(SanitizeAll(raw)), Separator)) == ColumnNames(SanitizeAll(raw))
    ensures |ColumnNames(SanitizeAll(raw))| == |raw| + 1
    ensures ColumnNames(SanitizeAll(raw))[0] == ProjectColumn
    ensures forall i :: 0 <= i < |raw| ==> ColumnNames(SanitizeAll(raw))[i + 1] == Escape(Sanitize(raw[i]))
  {
    var cols := ColumnNames(SanitizeAll(raw));
    forall i | 0 <= i < |cols| ensures ' ' !in cols[i] {
      if i > 0 {
        var h := Sanitize(raw[i - 1]);
        assert cols[i] == Escape(h);
        forall k | 0 <= k < |Escape(h)| ensures Escape(h)[k] != ' ' {
          if 0 < k < |h| + 1 { assert Escape(h)[k] == h[k - 1]; }
        }
      }
    }
    SplitJoin(cols);
  }
}
