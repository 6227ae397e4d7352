/**
 * parseCSV (app.js:32-79): a character-by-character tokenizer for
 * comma-separated text, loosely after section 2 of RFC 4180 (rules 5-7):
 * double quotes enclose a cell, a doubled quote inside quotes is a literal
 * quote, carriage returns outside quotes are dropped, and an unterminated
 * quote is not an error (the rest of the text belongs to the cell).
 */
module Csv {

  /** The tokenizer's variables: finished rows, the row being built, the cell being built, the quote flag. */
  datatype Lexer = Lexer(rows: seq<seq<string>>, row: seq<string>, current: string, inQuotes: bool)

  const Start := Lexer([], [], "", false)

  /** pushCell: the current cell joins the row. */
  function PushCell(l: Lexer): Lexer
  {
    l.(row := l.row + [l.current], current := "")
  }

  /** pushRow: the current row joins the finished rows. */
  function PushRow(l: Lexer): Lexer
  {
    l.(rows := l.rows + [l.row], row := [])
  }

  /** The tokenizer's state after reading the rest `t` of the text, starting from `l`. */
  function Scan(t: string, l: Lexer): Lexer
    decreases |t|
  {
    if t == [] then l
    else if l.inQuotes then
      if t[0] == '"' then
        if |t| > 1 && t[1] == '"' then Scan(t[2..], l.(current := l.current + "\""))
        else Scan(t[1..], l.(inQuotes := false))
      else Scan(t[1..], l.(current := l.current + [t[0]]))
    else if t[0] == '"' then Scan(t[1..], l.(inQuotes := true))
    else if t[0] == ',' then Scan(t[1..], PushCell(l))
    else if t[0] == '\n' then Scan(t[1..], PushRow(PushCell(l)))
    else if t[0] == '\r' then Scan(t[1..], l)
    else Scan(t[1..], l.(current := l.current + [t[0]]))
  }

  /** The final flush: a trailing row without a newline is still emitted. */
  function Flush(l: Lexer): seq<seq<string>>
  {
    if |l.current| > 0 || |l.row| > 0 then PushRow(PushCell(l)).rows else l.rows
  }

  /** The rows parseCSV returns for `text`. */
  function Parse(text: string): seq<seq<string>>
  {
    Flush(Scan(text, Start))
  }

  method ParseCsv(text: string) returns (rows: seq<seq<string>>)
    ensures rows == Parse(text)
    ensures text == "" ==> rows == []
    ensures forall k :: 0 <= k < |rows| ==> |rows[k]| > 0
  {
    rows := [];
    var row: seq<string> := [];
    var current: string := "";
    var inQuotes := false;
    var i := 0;
    while i < |text|
      invariant 0 <= i <= |text|
      invariant Scan(text[i..], Lexer(rows, row, current, inQuotes)) == Scan(text, Start)
    {
      var c := text[i];
      assert text[i..][1..] == text[i + 1..];
      if inQuotes {
        if c == '"' {
          if i + 1 < |text| && text[i + 1] == '"' {
            assert text[i..][2..] == text[i + 2..];
            current := current + "\"";
            i := i + 1;
          } else {
            inQuotes := false;
          }
        } else {
          current := current + [c];
        }
      } else if c == '"' {
        inQuotes := true;
      } else if c == ',' {
        row := row + [current];
        current := "";
      } else if c == '\n' {
        row := row + [current];
        current := "";
        rows := rows + [row];
        row := [];
      } else if c == '\r' {
        // carriage returns are dropped
      } else {
        current := current + [c];
      }
      i := i + 1;
    }
    assert text[i..] == [];
    if |current| > 0 || |row| > 0 {
      row := row + [current];
      current := "";
      rows := rows + [row];
      row := [];
    }
    ParsedRowsNonEmpty(text);
  }

  // ---------------------------------------------------------------------------
  // Every parsed row has at least one cell.

  ghost predicate RowsNonEmpty(rows: seq<seq<string>>)
  {
    forall k :: 0 <= k < |rows| ==> |rows[k]| > 0
  }

  lemma {:induction false} ScanKeepsRowsNonEmpty(t: string, l: Lexer)
    requires RowsNonEmpty(l.rows)
    ensures RowsNonEmpty(Scan(t, l).rows)
    decreases |t|
  {
    if t == [] {
    } else if l.inQuotes {
      if t[0] == '"' {
        if |t| > 1 && t[1] == '"' {
          ScanKeepsRowsNonEmpty(t[2..], l.(current := l.current + "\""));
        } else {
          ScanKeepsRowsNonEmpty(t[1..], l.(inQuotes := false));
        }
      } else {
        ScanKeepsRowsNonEmpty(t[1..], l.(current := l.current + [t[0]]));
      }
    } else if t[0] == '"' {
      ScanKeepsRowsNonEmpty(t[1..], l.(inQuotes := true));
    } else if t[0] == ',' {
      ScanKeepsRowsNonEmpty(t[1..], PushCell(l));
    } else if t[0] == '\n' {
      ScanKeepsRowsNonEmpty(t[1..], PushRow(PushCell(l)));
    } else if t[0] == '\r' {
      ScanKeepsRowsNonEmpty(t[1..], l);
    } else {
      ScanKeepsRowsNonEmpty(t[1..], l.(current := l.current + [t[0]]));
    }
  }

  /** A row is only ever pushed right after a cell, so no parsed row is empty. */
  lemma ParsedRowsNonEmpty(text: string)
    ensures forall k :: 0 <= k < |Parse(text)| ==> |Parse(text)[k]| > 0
  {
    ScanKeepsRowsNonEmpty(text, Start);
  }

  // ---------------------------------------------------------------------------
  // Serializing rows and parsing them back.

  /** A cell that needs no quoting: no comma, quote, newline or carriage return. */
  predicate PlainCell(c: string)
  {
    forall k :: 0 <= k < |c| ==> c[k] != ',' && c[k] != '"' && c[k] != '\n' && c[k] != '\r'
  }

  /** Every quote doubled. */
  function Escape(c: string): string
  {
    if c == [] then ""
    else (if c[0] == '"' then "\"\"" else [c[0]]) + Escape(c[1..])
  }

  /** A cell as written out: as it is, or between quotes with its quotes doubled. */
  function Encode(c: string, quoted: bool): string
  {
    if quoted then "\"" + Escape(c) + "\"" else c
  }

  function JoinCells(cells: seq<string>, quoted: bool): string
    requires |cells| > 0
  {
    if |cells| == 1 then Encode(cells[0], quoted)
    else Encode(cells[0], quoted) + "," + JoinCells(cells[1..], quoted)
  }

  /** Each row joined with commas and ended with a newline. */
  function Serialize(rows: seq<seq<string>>, quoted: bool): string
    requires RowsNonEmpty(rows)
  {
    if rows == [] then "" else JoinCells(rows[0], quoted) + "\n" + Serialize(rows[1..], quoted)
  }

  /** Cells that survive serialization: anything when quoted, plain cells otherwise. */
  ghost predicate Writable(rows: seq<seq<string>>, quoted: bool)
  {
    && RowsNonEmpty(rows)
    && (quoted || forall k, m :: 0 <= k < |rows| && 0 <= m < |rows[k]| ==> PlainCell(rows[k][m]))
  }

  lemma {:induction false} ScanPlain(c: string, t: string, l: Lexer)
    requires !l.inQuotes && PlainCell(c)
    ensures Scan(c + t, l) == Scan(t, l.(current := l.current + c))
    decreases |c|
  {
    if c == [] {
      assert c + t == t;
      assert l.current + c == l.current;
    } else {
      assert (c + t)[1..] == c[1..] + t;
      ScanPlain(c[1..], t, l.(current := l.current + [c[0]]));
      assert l.current + [c[0]] + c[1..] == l.current + c;
    }
  }

  lemma {:induction false} ScanEscaped(c: string, t: string, l: Lexer)
    requires l.inQuotes && (t == [] || t[0] != '"')
    ensures Scan(Escape(c) + "\"" + t, l) == Scan(t, l.(current := l.current + c, inQuotes := false))
    decreases |c|
  {
    if c == [] {
      assert Escape(c) + "\"" + t == "\"" + t;
      assert ("\"" + t)[1..] == t;
      assert l.current + c == l.current;
    } else if c[0] == '"' {
      var rest := Escape(c[1..]) + "\"" + t;
      assert Escape(c) + "\"" + t == "\"\"" + rest;
      assert ("\"\"" + rest)[2..] == rest;
      ScanEscaped(c[1..], t, l.(current := l.current + "\""));
      assert l.current + "\"" + c[1..] == l.current + c;
    } else {
      var rest := Escape(c[1..]) + "\"" + t;
      assert Escape(c) + "\"" + t == [c[0]] + rest;
      assert ([c[0]] + rest)[1..] == rest;
      ScanEscaped(c[1..], t, l.(current := l.current + [c[0]]));
      assert l.current + [c[0]] + c[1..] == l.current + c;
    }
  }

  lemma ScanCell(c: string, quoted: bool, t: string, rows: seq<seq<string>>, prefix: seq<string>)
    requires quoted || PlainCell(c)
    requires t != [] && (t[0] == ',' || t[0] == '\n')
    ensures Scan(Encode(c, quoted) + t, Lexer(rows, prefix, "", false)) == Scan(t, Lexer(rows, prefix, c, false))
  {
    var l := Lexer(rows, prefix, "", false);
    if quoted {
      var rest := Escape(c) + "\"" + t;
      assert Encode(c, quoted) + t == "\"" + rest;
      assert ("\"" + rest)[1..] == rest;
      assert Scan("\"" + rest, l) == Scan(rest, l.(inQuotes := true));
      ScanEscaped(c, t, l.(inQuotes := true));
      assert l.current + c == c;
    } else {
      ScanPlain(c, t, l);
      assert l.current + c == c;
    }
  }

  lemma ScanLastCell(c: string, quoted: bool, t: string, rows: seq<seq<string>>, prefix: seq<string>)
    requires quoted || PlainCell(c)
    ensures Scan(Encode(c, quoted) + "\n" + t, Lexer(rows, prefix, "", false))
         == Scan(t, Lexer(rows + [prefix + [c]], [], "", false))
  {
    assert Encode(c, quoted) + "\n" + t == Encode(c, quoted) + ("\n" + t);
    ScanCell(c, quoted, "\n" + t, rows, prefix);
    ScanNewline(t, Lexer(rows, prefix, c, false));
  }

  lemma {:induction false} ScanRow(cells: seq<string>, quoted: bool, t: string, rows: seq<seq<string>>, prefix: seq<string>)
    requires |cells| > 0
    requires quoted || forall m :: 0 <= m < |cells| ==> PlainCell(cells[m])
    ensures Scan(JoinCells(cells, quoted) + "\n" + t, Lexer(rows, prefix, "", false))
         == Scan(t, Lexer(rows + [prefix + cells], [], "", false))
    decreases |cells|
  {
    if |cells| == 1 {
      assert JoinCells(cells, quoted) + "\n" + t == Encode(cells[0], quoted) + "\n" + t;
      ScanLastCell(cells[0], quoted, t, rows, prefix);
      assert cells == [cells[0]];
    } else {
      var l := Lexer(rows, prefix, cells[0], false);
      var rest := JoinCells(cells[1..], quoted) + "\n" + t;
      assert JoinCells(cells, quoted) + "\n" + t == Encode(cells[0], quoted) + ("," + rest);
      ScanCell(cells[0], quoted, "," + rest, rows, prefix);
      ScanComma(rest, l);
      assert PushCell(l) == Lexer(rows, prefix + [cells[0]], "", false);
      assert quoted || forall m :: 0 <= m < |cells| - 1 ==> PlainCell(cells[1..][m]);
      ScanRow(cells[1..], quoted, t, rows, prefix + [cells[0]]);
      assert prefix + [cells[0]] + cells[1..] == prefix + cells;
    }
  }

  lemma ScanComma(t: string, l: Lexer)
    requires !l.inQuotes
    ensures Scan("," + t, l) == Scan(t, PushCell(l))
  {
    assert ("," + t)[1..] == t;
  }

  lemma ScanNewline(t: string, l: Lexer)
    requires !l.inQuotes
    ensures Scan("\n" + t, l) == Scan(t, PushRow(PushCell(l)))
  {
    assert ("\n" + t)[1..] == t;
  }

  lemma {:induction false} ScanSerialized(rs: seq<seq<string>>, quoted: bool, t: string, rows: seq<seq<string>>)
    requires Writable(rs, quoted)
    ensures Scan(Serialize(rs, quoted) + t, Lexer(rows, [], "", false)) == Scan(t, Lexer(rows + rs, [], "", false))
    decreases |rs|
  {
    if rs == [] {
      assert Serialize(rs, quoted) + t == t;
      assert rows + rs == rows;
    } else {
      var rest := Serialize(rs[1..], quoted) + t;
      assert Serialize(rs, quoted) + t == JoinCells(rs[0], quoted) + "\n" + rest;
      assert quoted || forall m :: 0 <= m < |rs[0]| ==> PlainCell(rs[0][m]);
      ScanRow(rs[0], quoted, rest, rows, []);
      assert [] + rs[0] == rs[0];
      assert Writable(rs[1..], quoted);
      ScanSerialized(rs[1..], quoted, t, rows + [rs[0]]);
      assert rows + [rs[0]] + rs[1..] == rows + rs;
    }
  }

  /**
   * Rows that each have a cell, joined with commas and ended with newlines,
   * parse back to themselves: any cells when each is quoted with its quotes
   * doubled, and cells free of `,`, `"`, newline and carriage return otherwise.
   */
  lemma SerializeRoundTrip(rs: seq<seq<string>>, quoted: bool)
    requires Writable(rs, quoted)
    ensures Parse(Serialize(rs, quoted)) == rs
  {
    ScanSerialized(rs, quoted, "", []);
    assert Serialize(rs, quoted) + "" == Serialize(rs, quoted);
    assert [] + rs == rs;
  }

  // ---------------------------------------------------------------------------
  // Carriage returns and newlines.

  function StripCarriageReturns(t: string): string
  {
    if t == [] then ""
    else if t[0] == '\r' then StripCarriageReturns(t[1..])
    else [t[0]] + StripCarriageReturns(t[1..])
  }

  lemma {:induction false} ScanIgnoresCarriageReturns(t: string, l: Lexer)
    requires !l.inQuotes && '"' !in t
    ensures Scan(t, l) == Scan(StripCarriageReturns(t), l)
    decreases |t|
  {
    if t != [] {
      assert t[0] in t;
      assert forall k :: 1 <= k < |t| ==> t[1..][k - 1] == t[k];
      assert '"' !in t[1..];
      if t[0] == '\r' {
        ScanIgnoresCarriageReturns(t[1..], l);
      } else {
        var s := StripCarriageReturns(t[1..]);
        assert ([t[0]] + s)[1..] == s;
        if t[0] == ',' {
          ScanIgnoresCarriageReturns(t[1..], PushCell(l));
        } else if t[0] == '\n' {
          ScanIgnoresCarriageReturns(t[1..], PushRow(PushCell(l)));
        } else {
          ScanIgnoresCarriageReturns(t[1..], l.(current := l.current + [t[0]]));
        }
      }
    }
  }

  /** Text without quotes parses the same with its carriage returns removed (CRLF reads as LF). */
  lemma CrlfParsesAsLf(text: string)
    requires '"' !in text
    ensures Parse(text) == Parse(StripCarriageReturns(text))
  {
    ScanIgnoresCarriageReturns(text, Start);
  }

  lemma {:induction false} ScanWithoutNewlineKeepsRows(t: string, l: Lexer)
    requires '\n' !in t
    ensures Scan(t, l).rows == l.rows
    decreases |t|
  {
    if t != [] {
      assert t[0] in t;
      assert forall k :: 1 <= k < |t| ==> t[1..][k - 1] == t[k];
      assert '\n' !in t[1..];
      if l.inQuotes {
        if t[0] == '"' {
          if |t| > 1 && t[1] == '"' {
            assert forall k :: 2 <= k < |t| ==> t[2..][k - 2] == t[k];
            assert '\n' !in t[2..];
            ScanWithoutNewlineKeepsRows(t[2..], l.(current := l.current + "\""));
          } else {
            ScanWithoutNewlineKeepsRows(t[1..], l.(inQuotes := false));
          }
        } else {
          ScanWithoutNewlineKeepsRows(t[1..], l.(current := l.current + [t[0]]));
        }
      } else if t[0] == '"' {
        ScanWithoutNewlineKeepsRows(t[1..], l.(inQuotes := true));
      } else if t[0] == ',' {
        ScanWithoutNewlineKeepsRows(t[1..], PushCell(l));
      } else if t[0] == '\r' {
        ScanWithoutNewlineKeepsRows(t[1..], l);
      } else {
        ScanWithoutNewlineKeepsRows(t[1..], l.(current := l.current + [t[0]]));
      }
    }
  }

  /** Text without a newline parses to at most one row; empty text to none. */
  lemma SingleLineAtMostOneRow(text: string)
    requires '\n' !in text
    ensures |Parse(text)| <= 1
    ensures text == "" ==> Parse(text) == []
  {
    ScanWithoutNewlineKeepsRows(text, Start);
  }

  /** A blank line is a row holding one empty cell, not a row without cells. */
  lemma BlankLineIsOneEmptyCell(rest: string)
    ensures Scan("\n" + rest, Start) == Scan(rest, Lexer([[""]], [], "", false))
    ensures Parse("\n") == [[""]]
  {
    var empty: seq<string> := [];
    assert empty + [""] == [""];
    var rows: seq<seq<string>> := [];
    assert rows + [[""]] == [[""]];
    assert PushRow(PushCell(Start)) == Lexer([[""]], [], "", false);
    ScanNewline(rest, Start);
    ScanNewline("", Start);
    assert "\n" + "" == "\n";
  }

  /** A quote outside quotes only opens a quoted section. */
  lemma ScanOpenQuote(t: string, l: Lexer)
    requires !l.inQuotes
    ensures Scan("\"" + t, l) == Scan(t, l.(inQuotes := true))
  {
    assert ("\"" + t)[1..] == t;
  }

  /** A comma outside quotes ends a cell; a doubled quote inside quotes is one literal quote. */
  lemma QuotedCellExample()
    ensures Parse("a,\"b\"\"c\"") == [["a", "b\"c"]]
  {
    var cell := "b\"c";
    assert Escape(cell[2..]) == "c";
    assert Escape(cell[1..]) == "\"\"c";
    assert Escape(cell) == "b\"\"c";
    var r := Escape(cell) + "\"" + "";
    var q := "\"" + r;
    var text := "a" + ("," + q);
    assert text == "a,\"b\"\"c\"";
    var l := Lexer([], ["a"], "", false);
    ScanPlain("a", "," + q, Start);
    assert Start.current + "a" == "a";
    ScanComma(q, Start.(current := "a"));
    assert PushCell(Start.(current := "a")) == l;
    ScanOpenQuote(r, l);
    ScanEscaped(cell, "", l.(inQuotes := true));
    assert "" + cell == cell;
    assert Scan("", Lexer([], ["a"], cell, false)) == Lexer([], ["a"], cell, false);
    assert Scan(text, Start) == Lexer([], ["a"], cell, false);
    assert |cell| > 0;
    assert Flush(Lexer([], ["a"], cell, false)) == [] + [["a"] + [cell]];
    var row: seq<string> := ["a"] + [cell];
    assert row == ["a", cell];
    var rows: seq<seq<string>> := [] + [row];
    assert rows == [["a", cell]];
  }
}
