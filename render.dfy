/**
 * Rendering (`generate_html`): `html.escape`, one `<tr>` of seven `<td>` cells per
 * record in the order of the table header, and the page template into which the
 * rows are spliced unchanged. A parser that reads the rows back serves as the
 * partner that pins down their structure.
 */
module Render {
  import opened Wrappers
  import Duration
  import Metadata

  // ---------------------------------------------------------------- html.escape

  /** `html.escape(s, quote=True)` on one character. */
  function EscapeChar(c: char): string
  {
    if c == '&' then "&amp;"
    else if c == '<' then "&lt;"
    else if c == '>' then "&gt;"
    else if c == '"' then "&quot;"
    else if c == '\'' then "&#x27;"
    else [c]
  }

  /**
   * Only `&` and the four unsafe characters change, each into a character reference
   * that starts with `&`, ends with `;` and holds no unsafe character.
   */
  lemma EscapeCharCases(c: char)
    ensures EscapeChar(c) == [c] <==> c != '&' && !Unsafe(c)
    ensures EscapeChar(c) != [c] ==>
      var r := EscapeChar(c);
      |r| >= 4 && r[0] == '&' && r[|r| - 1] == ';' && forall i :: 0 <= i < |r| ==> !Unsafe(r[i])
  {
  }

  /** The characters that never appear raw in escaped text. */
  predicate Unsafe(c: char) { c == '<' || c == '>' || c == '"' || c == '\'' }

  /**
   * `html.escape(s)`. Python replaces `&` first and then the other four in turn;
   * since no later replacement produces one of the earlier characters, this is the
   * same as escaping character by character.
   */
  function Escape(s: string): (r: string)
    ensures forall i :: 0 <= i < |r| ==> !Unsafe(r[i])
    ensures |s| <= |r|
    decreases |s|
  {
    if s == [] then [] else EscapeChar(s[0]) + Escape(s[1..])
  }

  predicate StartsWith(s: string, prefix: string) { |prefix| <= |s| && s[..|prefix|] == prefix }

  /** One of the five character references `html.escape` produces starts at `s[i]`. */
  predicate EntityAt(s: string, i: nat)
    requires i <= |s|
  {
    var t := s[i..];
    StartsWith(t, "&amp;") || StartsWith(t, "&lt;") || StartsWith(t, "&gt;") ||
    StartsWith(t, "&quot;") || StartsWith(t, "&#x27;")
  }

  /** Decoding of the five character references; every other character stands for itself. */
  function Unescape(s: string): string
    decreases |s|
  {
    if s == [] then []
    else if StartsWith(s, "&amp;") then "&" + Unescape(s[5..])
    else if StartsWith(s, "&lt;") then "<" + Unescape(s[4..])
    else if StartsWith(s, "&gt;") then ">" + Unescape(s[4..])
    else if StartsWith(s, "&quot;") then "\"" + Unescape(s[6..])
    else if StartsWith(s, "&#x27;") then "'" + Unescape(s[6..])
    else [s[0]] + Unescape(s[1..])
  }

  /** Every `&` in escaped text begins a character reference. */
  lemma {:induction false} EscapeAmpersands(s: string)
    ensures forall i :: 0 <= i < |Escape(s)| && Escape(s)[i] == '&' ==> EntityAt(Escape(s), i)
    decreases |s|
  {
    if s != [] {
      var e, rest := EscapeChar(s[0]), Escape(s[1..]);
      EscapeAmpersands(s[1..]);
      var r := Escape(s);
      assert r == e + rest;
      forall i | 0 <= i < |r| && r[i] == '&' ensures EntityAt(r, i) {
        if i < |e| {
          assert i == 0;
          assert r[i..][..|e|] == e;
        } else {
          assert rest[i - |e|] == '&';
          assert r[i..] == rest[i - |e|..];
        }
      }
    }
  }

  lemma UnescapeEscapeChar(c: char, rest: string)
    ensures Unescape(EscapeChar(c) + rest) == [c] + Unescape(rest)
  {
    var e := EscapeChar(c);
    var r := e + rest;
    assert r[..|e|] == e && r[|e|..] == rest;
    if c == '&' {
      assert StartsWith(r, "&amp;");
      assert Unescape(r) == "&" + Unescape(rest);
    } else if c == '<' {
      assert !StartsWith(r, "&amp;") by { assert r[1] != "&amp;"[1]; }
      assert StartsWith(r, "&lt;");
      assert Unescape(r) == "<" + Unescape(rest);
    } else if c == '>' {
      assert !StartsWith(r, "&amp;") by { assert r[1] != "&amp;"[1]; }
      assert !StartsWith(r, "&lt;") by { assert r[1] != "&lt;"[1]; }
      assert StartsWith(r, "&gt;");
      assert Unescape(r) == ">" + Unescape(rest);
    } else if c == '"' {
      assert !StartsWith(r, "&amp;") by { assert r[1] != "&amp;"[1]; }
      assert !StartsWith(r, "&lt;") by { assert r[1] != "&lt;"[1]; }
      assert !StartsWith(r, "&gt;") by { assert r[1] != "&gt;"[1]; }
      assert StartsWith(r, "&quot;");
      assert Unescape(r) == "\"" + Unescape(rest);
    } else if c == '\'' {
      assert !StartsWith(r, "&amp;") by { assert r[1] != "&amp;"[1]; }
      assert !StartsWith(r, "&lt;") by { assert r[1] != "&lt;"[1]; }
      assert !StartsWith(r, "&gt;") by { assert r[1] != "&gt;"[1]; }
      assert !StartsWith(r, "&quot;") by { assert r[1] != "&quot;"[1]; }
      assert StartsWith(r, "&#x27;");
      assert Unescape(r) == "'" + Unescape(rest);
    } else {
      assert r[0] == c && r[0] != '&';
      assert !StartsWith(r, "&amp;") by { assert r[0] != "&amp;"[0]; }
      assert !StartsWith(r, "&lt;") by { assert r[0] != "&lt;"[0]; }
      assert !StartsWith(r, "&gt;") by { assert r[0] != "&gt;"[0]; }
      assert !StartsWith(r, "&quot;") by { assert r[0] != "&quot;"[0]; }
      assert !StartsWith(r, "&#x27;") by { assert r[0] != "&#x27;"[0]; }
      assert r[1..] == rest;
      assert Unescape(r) == [c] + Unescape(rest);
    }
  }

  /** `Unescape` undoes `Escape`: no information is lost by escaping. */
  lemma {:induction false} EscapeRoundTrip(s: string)
    ensures Unescape(Escape(s)) == s
    decreases |s|
  {
    if s != [] {
      EscapeRoundTrip(s[1..]);
      UnescapeEscapeChar(s[0], Escape(s[1..]));
      assert [s[0]] + s[1..] == s;
    }
  }

  // ---------------------------------------------------------------- rows

  /** The column titles of the table header, left to right. */
  const HeaderLabels: seq<string> :=
    ["Cover", "Album Artist", "Artist", "Track Name", "Album Name", "Year", "Length"]

  /** The cover cell: empty for a missing or empty path, else an image of the escaped path. */
  function CoverCell(cover: Option<string>): (r: string)
    ensures r == "" <==> cover.None? || cover.value == ""
    ensures r != "" ==> && |r| >= 24 && r[..10] == "<img src='" && r[|r| - 14..] == "' alt='Cover'>"
                        && forall i :: 10 <= i < |r| - 14 ==> r[i] != '\''
  {
    if cover.Some? && cover.value != "" then "<img src='" + Escape(cover.value) + "' alt='Cover'>" else ""
  }

  /** The contents of the seven cells of a record's row, in header order. */
  function RowCells(t: Metadata.Track): (r: seq<string>)
    ensures |r| == |HeaderLabels|
    ensures forall k, i :: 1 <= k < 6 && 0 <= i < |r[k]| ==> !Unsafe(r[k][i])
    ensures forall i :: 0 <= i < |r[6]| ==> Duration.IsDigit(r[6][i]) || r[6][i] == ':'
  {
    [CoverCell(t.cover), Escape(t.albumArtist), Escape(t.artist), Escape(t.trackName),
     Escape(t.albumName), Escape(t.year), Duration.FormatLength(t.length)]
  }

  function Cell(content: string): string { "<td>" + content + "</td>" }

  function CellsMarkup(cells: seq<string>): string
  {
    if cells == [] then "" else Cell(cells[0]) + CellsMarkup(cells[1..])
  }

  /** A `<tr>` element with the given cell contents. */
  function RowMarkup(cells: seq<string>): string
  {
    "<tr>" + CellsMarkup(cells) + "</tr>"
  }

  /** The `<tr>` element of one record. */
  function Row(t: Metadata.Track): (r: string)
    ensures ParseRows(r) == Some([RowCells(t)])
  {
    var table := Table([t]);
    assert table == [RowCells(t)] && table[1..] == [];
    assert RowsOf(table) == RowMarkup(RowCells(t)) + "" == RowMarkup(RowCells(t));
    RowsRoundTrip([t]);
    RowMarkup(RowCells(t))
  }

  /** The `<tr>` elements of a table of cell contents, concatenated in order. */
  function RowsOf(table: seq<seq<string>>): string
  {
    if table == [] then "" else RowMarkup(table[0]) + RowsOf(table[1..])
  }

  /** The rows of a list of records, concatenated in list order. */
  function Rows(list: seq<Metadata.Track>): string
  {
    RowsOf(Table(list))
  }

  /** The cell contents of every row, in list order. */
  function Table(list: seq<Metadata.Track>): seq<seq<string>>
  {
    seq(|list|, i requires 0 <= i < |list| => RowCells(list[i]))
  }

  // ---------------------------------------------------------------- the page

  /** The page up to the table: document head with its style and sort script, and the title. */
  const DocumentHead: string := @"<!DOCTYPE html>
<html lang=""en"">
<head>
    <meta charset=""UTF-8"">
    <meta name=""viewport"" content=""width=device-width, initial-scale=1.0"">
    <title>Audio Library</title>
    <style>
        body { 
            font-family: Arial, sans-serif; 
            margin: 20px; 
            background-color: #121212; 
            color: #ffffff; 
        }
        table { 
            border-collapse: collapse; 
            width: 100%; 
        }
        th, td { 
            border: 1px solid #444; 
            padding: 8px; 
            text-align: left; 
        }
        th { 
            background-color: #333; 
            cursor: pointer; 
        }
        tr:nth-child(even) { 
            background-color: #1e1e1e; 
        }
        tr:hover { 
            background-color: #333; 
        }
        img { 
            max-width: 50px; 
            max-height: 50px; 
        }
    </style>
    <script>
        document.addEventListener('DOMContentLoaded', function() {
            const table = document.querySelector('table');
            const headers = table.querySelectorAll('th');
            headers.forEach((header, index) => {
                header.addEventListener('click', () => {
                    const rows = Array.from(table.querySelectorAll('tbody tr'));
                    const ascending = header.dataset.order !== 'asc';
                    rows.sort((rowA, rowB) => {
                        const cellA = rowA.children[index].textContent.trim();
                        const cellB = rowB.children[index].textContent.trim();
                        if (!isNaN(cellA) && !isNaN(cellB)) {
                            return ascending ? cellA - cellB : cellB - cellA;
                        }
                        return ascending 
                            ? cellA.localeCompare(cellB)
                            : cellB.localeCompare(cellA);
                    });
                    header.dataset.order = ascending ? 'asc' : 'desc';
                    const tbody = table.querySelector('tbody');
                    tbody.innerHTML = '';
                    rows.forEach(row => tbody.appendChild(row));
                });
            });
        });
    </script>
</head>
<body>
    <h1>Audio Library</h1>
"

  const TableStart: string := "    <table>\n        <thead>\n            <tr>\n"
  const BodyStart: string := "            </tr>\n        </thead>\n        <tbody>\n            "
  const DocumentTail: string := "\n        </tbody>\n    </table>\n</body>\n</html>"

  function HeaderMarkup(labels: seq<string>): string
  {
    if labels == [] then "" else "                <th>" + labels[0] + "</th>\n" + HeaderMarkup(labels[1..])
  }

  /** Everything of the page that precedes the rows. */
  function PageStart(): string
  {
    DocumentHead + TableStart + HeaderMarkup(HeaderLabels) + BodyStart
  }

  /** `html_template.format(rows=rows)`: the rows are inserted verbatim. */
  function Page(rows: string): string
  {
    PageStart() + rows + DocumentTail
  }

  // ---------------------------------------------------------------- reading rows back

  /** No `</` starts inside `c`, so the first `</` after a cell's content closes the cell. */
  predicate NoCloseMark(c: string)
  {
    forall i :: 0 <= i < |c| && c[i] == '<' ==> i + 1 < |c| && c[i + 1] != '/'
  }

  /** The index of the first `</` in `s`. */
  function FindCloseMark(s: string): (r: Option<nat>)
    ensures r.Some? ==> r.value + 1 < |s|
    decreases |s|
  {
    if |s| < 2 then None
    else if s[0] == '<' && s[1] == '/' then Some(0)
    else match FindCloseMark(s[1..])
      case None => None
      case Some(k) => Some(k + 1)
  }

  /** The cells of one row up to and including its `</tr>`, and what follows. */
  function ParseCells(s: string): (r: Option<(seq<string>, string)>)
    ensures r.Some? ==> |r.value.1| < |s|
    decreases |s|
  {
    if StartsWith(s, "</tr>") then Some(([], s[5..]))
    else if StartsWith(s, "<td>") then
      var body := s[4..];
      match FindCloseMark(body)
      case None => None
      case Some(k) =>
        if StartsWith(body[k..], "</td>") then
          match ParseCells(body[k + 5..])
          case None => None
          case Some(parsed) => Some(([body[..k]] + parsed.0, parsed.1))
        else None
    else None
  }

  /** The cell contents of every `<tr>` element of `s`, in order. */
  function ParseRows(s: string): Option<seq<seq<string>>>
    decreases |s|
  {
    if s == [] then Some([])
    else if StartsWith(s, "<tr>") then
      match ParseCells(s[4..])
      case None => None
      case Some(parsed) =>
        match ParseRows(parsed.1)
        case None => None
        case Some(rows) => Some([parsed.0] + rows)
    else None
  }

  lemma {:induction false} FindCloseMarkAfter(c: string, rest: string)
    requires NoCloseMark(c)
    ensures FindCloseMark(c + "</td>" + rest) == Some(|c|)
    decreases |c|
  {
    var s := c + "</td>" + rest;
    if c == [] {
      assert s[0] == '<' && s[1] == '/';
    } else {
      var tail := c[1..];
      assert s[1..] == tail + "</td>" + rest;
      forall i | 0 <= i < |tail| && tail[i] == '<' ensures i + 1 < |tail| && tail[i + 1] != '/' {
        assert c[i + 1] == '<';
      }
      FindCloseMarkAfter(tail, rest);
      if c[0] == '<' {
        assert s[1] == c[1];
      }
    }
  }

  /** One cell whose content holds no `</` is read, then the parse goes on after it. */
  lemma CellStep(c: string, more: string)
    requires NoCloseMark(c)
    ensures ParseCells("<td>" + c + "</td>" + more) ==
      match ParseCells(more)
      case None => None
      case Some(parsed) => Some(([c] + parsed.0, parsed.1))
  {
    var inner := c + "</td>" + more;
    var s := "<td>" + inner;
    assert s == "<td>" + c + "</td>" + more;
    assert !StartsWith(s, "</tr>") by { assert s[1] != "</tr>"[1]; }
    assert StartsWith(s, "<td>");
    var body := s[4..];
    assert body == inner;
    FindCloseMarkAfter(c, more);
    assert StartsWith(body[|c|..], "</td>");
    assert body[|c| + 5..] == more;
    assert body[..|c|] == c;
  }

  /** The cells written by `CellsMarkup`, closed by `</tr>`, read back as they were. */
  lemma {:induction false} CellsRoundTrip(cells: seq<string>, rest: string)
    requires forall i :: 0 <= i < |cells| ==> NoCloseMark(cells[i])
    ensures ParseCells(CellsMarkup(cells) + "</tr>" + rest) == Some((cells, rest))
    decreases |cells|
  {
    var s := CellsMarkup(cells) + "</tr>" + rest;
    if cells == [] {
      assert s == "</tr>" + rest;
      assert StartsWith(s, "</tr>");
      assert s[5..] == rest;
    } else {
      var c, more := cells[0], CellsMarkup(cells[1..]) + "</tr>" + rest;
      assert s == "<td>" + c + "</td>" + more;
      CellStep(c, more);
      CellsRoundTrip(cells[1..], rest);
      assert [c] + cells[1..] == cells;
    }
  }

  lemma CoverCellSafe(cover: Option<string>)
    ensures NoCloseMark(CoverCell(cover))
  {
    if cover.Some? && cover.value != "" {
      var pre, v, post := "<img src='", Escape(cover.value), "' alt='Cover'>";
      var c := pre + v + post;
      assert c[1] == 'i';
      forall i | 1 <= i < |pre| ensures c[i] != '<' {
        assert c[i] == pre[i];
      }
      forall i | |pre| <= i < |pre| + |v| ensures c[i] != '<' {
        assert c[i] == v[i - |pre|];
      }
      forall i | |pre| + |v| <= i < |c| ensures c[i] != '<' {
        assert c[i] == post[i - |pre| - |v|];
      }
    }
  }

  /** No cell content contains `</`, so the parser finds each cell's end. */
  lemma RowCellsSafe(t: Metadata.Track)
    ensures forall i :: 0 <= i < |RowCells(t)| ==> NoCloseMark(RowCells(t)[i])
  {
    CoverCellSafe(t.cover);
  }

  predicate SafeTable(table: seq<seq<string>>)
  {
    forall i, j :: 0 <= i < |table| && 0 <= j < |table[i]| ==> NoCloseMark(table[i][j])
  }

  lemma SafeTableTail(table: seq<seq<string>>)
    requires table != [] && SafeTable(table)
    ensures SafeTable(table[1..])
  {
    forall i, j | 0 <= i < |table[1..]| && 0 <= j < |table[1..][i]| ensures NoCloseMark(table[1..][i][j]) {
      assert table[1..][i] == table[i + 1];
    }
  }

  lemma RowMarkupThen(cells: seq<string>, rest: string)
    ensures var s := RowMarkup(cells) + rest;
      StartsWith(s, "<tr>") && s[4..] == CellsMarkup(cells) + "</tr>" + rest
  {
    var s := RowMarkup(cells) + rest;
    assert s == "<tr>" + (CellsMarkup(cells) + "</tr>" + rest);
  }

  lemma {:induction false} RowsOfRoundTrip(table: seq<seq<string>>)
    requires SafeTable(table)
    ensures ParseRows(RowsOf(table)) == Some(table)
    decreases |table|
  {
    if table != [] {
      var cells, rest := table[0], RowsOf(table[1..]);
      RowMarkupThen(cells, rest);
      CellsRoundTrip(cells, rest);
      SafeTableTail(table);
      RowsOfRoundTrip(table[1..]);
      assert [cells] + table[1..] == table;
    }
  }

  /** Every record gives one `<tr>` whose cells are its seven cell contents, in list order. */
  lemma RowsRoundTrip(list: seq<Metadata.Track>)
    ensures ParseRows(Rows(list)) == Some(Table(list))
  {
    forall i | 0 <= i < |list| ensures forall j :: 0 <= j < |RowCells(list[i])| ==> NoCloseMark(RowCells(list[i])[j]) {
      RowCellsSafe(list[i]);
    }
    RowsOfRoundTrip(Table(list));
  }

  /**
   * What each cell holds: the cover cell is empty exactly when the cover is missing
   * or empty, and otherwise an image whose single-quoted `src` cannot be closed early
   * and decodes to the cover path; the five text cells decode to the record's fields
   * and hold none of `<`, `>`, `"`, `'`; the length cell reads back as the length.
   */
  lemma RowCellsMeaning(t: Metadata.Track)
    ensures var cells := RowCells(t);
      && |cells| == |HeaderLabels| == 7
      && (cells[0] == "" <==> t.cover.None? || t.cover.value == "")
      && (t.cover.Some? && t.cover.value != "" ==>
            exists v :: cells[0] == "<img src='" + v + "' alt='Cover'>" && '\'' !in v && Unescape(v) == t.cover.value)
      && Unescape(cells[1]) == t.albumArtist
      && Unescape(cells[2]) == t.artist
      && Unescape(cells[3]) == t.trackName
      && Unescape(cells[4]) == t.albumName
      && Unescape(cells[5]) == t.year
      && (forall k, i :: 1 <= k <= 5 && 0 <= i < |cells[k]| ==> !Unsafe(cells[k][i]))
      && Duration.ClockValue(cells[6]) == Some(t.length)
  {
    EscapeRoundTrip(t.albumArtist);
    EscapeRoundTrip(t.artist);
    EscapeRoundTrip(t.trackName);
    EscapeRoundTrip(t.albumName);
    EscapeRoundTrip(t.year);
    Duration.FormatLengthRoundTrip(t.length);
    CoverCellMeaning(t.cover);
  }

  /** A present cover path becomes an image whose single-quoted `src` decodes to the path. */
  lemma CoverCellMeaning(cover: Option<string>)
    ensures cover.Some? && cover.value != "" ==>
      exists v :: CoverCell(cover) == "<img src='" + v + "' alt='Cover'>" && '\'' !in v && Unescape(v) == cover.value
  {
    if cover.Some? && cover.value != "" {
      var v := Escape(cover.value);
      EscapeRoundTrip(cover.value);
    }
  }

  lemma {:induction false} RowsOfSnoc(table: seq<seq<string>>, cells: seq<string>)
    ensures RowsOf(table + [cells]) == RowsOf(table) + RowMarkup(cells)
    decreases |table|
  {
    if table == [] {
      assert [cells][1..] == [];
    } else {
      assert (table + [cells])[1..] == table[1..] + [cells];
      RowsOfSnoc(table[1..], cells);
    }
  }

  lemma RowsSnoc(list: seq<Metadata.Track>, t: Metadata.Track)
    ensures Rows(list + [t]) == Rows(list) + Row(t)
  {
    assert Table(list + [t]) == Table(list) + [RowCells(t)];
    RowsOfSnoc(Table(list), RowCells(t));
  }

  lemma {:induction false} CellsMarkupSnoc(cells: seq<string>, c: string)
    ensures CellsMarkup(cells + [c]) == CellsMarkup(cells) + Cell(c)
    decreases |cells|
  {
    if cells == [] {
      assert [c][1..] == [];
    } else {
      assert (cells + [c])[1..] == cells[1..] + [c];
      CellsMarkupSnoc(cells[1..], c);
    }
  }

  /** One more cell appended to a row under construction. */
  lemma AppendCell(row: string, start: string, cells: seq<string>, k: nat)
    requires k < |cells|
    requires row == start + CellsMarkup(cells[..k])
    ensures row + Cell(cells[k]) == start + CellsMarkup(cells[..k + 1])
  {
    assert cells[..k + 1] == cells[..k] + [cells[k]];
    CellsMarkupSnoc(cells[..k], cells[k]);
  }

  /** Appending the seven cells one at a time, then `</tr>`, appends the row. */
  lemma RowChain(rows: string, c: seq<string>)
    requires |c| == 7
    ensures rows + "<tr>" + Cell(c[0]) + Cell(c[1]) + Cell(c[2]) + Cell(c[3]) + Cell(c[4]) + Cell(c[5]) + Cell(c[6]) + "</tr>"
            == rows + RowMarkup(c)
  {
    var start := rows + "<tr>";
    assert start == start + CellsMarkup(c[..0]);
    var r1 := start + Cell(c[0]);
    AppendCell(start, start, c, 0);
    var r2 := r1 + Cell(c[1]);
    AppendCell(r1, start, c, 1);
    var r3 := r2 + Cell(c[2]);
    AppendCell(r2, start, c, 2);
    var r4 := r3 + Cell(c[3]);
    AppendCell(r3, start, c, 3);
    var r5 := r4 + Cell(c[4]);
    AppendCell(r4, start, c, 4);
    var r6 := r5 + Cell(c[5]);
    AppendCell(r5, start, c, 5);
    var r7 := r6 + Cell(c[6]);
    AppendCell(r6, start, c, 6);
    assert c[..7] == c;
    assert r7 == rows + "<tr>" + CellsMarkup(c);
    assert rows + "<tr>" + CellsMarkup(c) + "</tr>" == rows + ("<tr>" + CellsMarkup(c) + "</tr>");
  }

  /** One pass of the loop of `generate_html`: `rows += ...` for the row of `metadata`. */
  method AppendRow(rows: string, metadata: Metadata.Track) returns (out: string)
    ensures out == rows + Row(metadata)
  {
    var coverHtml := if metadata.cover.Some? && metadata.cover.value != ""
                     then "<img src='" + Escape(metadata.cover.value) + "' alt='Cover'>" else "";
    out := rows + "<tr>";
    out := out + Cell(coverHtml);
    out := out + Cell(Escape(metadata.albumArtist));
    out := out + Cell(Escape(metadata.artist));
    out := out + Cell(Escape(metadata.trackName));
    out := out + Cell(Escape(metadata.albumName));
    out := out + Cell(Escape(metadata.year));
    out := out + Cell(Duration.FormatLength(metadata.length));
    out := out + "</tr>";
    RowChain(rows, RowCells(metadata));
  }

  /**
   * The page holds the rows unchanged between its fixed start and end, and reading
   * them back gives one row per record, in list order, each with its seven cells.
   */
  lemma PageRoundTrip(list: seq<Metadata.Track>)
    ensures var page := Page(Rows(list));
      && |PageStart()| + |DocumentTail| <= |page|
      && page[..|PageStart()|] == PageStart()
      && page[|page| - |DocumentTail|..] == DocumentTail
      && ParseRows(page[|PageStart()|..|page| - |DocumentTail|]) == Some(Table(list))
  {
    PageSlices(Rows(list));
    RowsRoundTrip(list);
  }

  /** Filling the template keeps its fixed start and end around the verbatim rows. */
  lemma PageSlices(rows: string)
    ensures var page := Page(rows);
      && |PageStart()| + |DocumentTail| <= |page|
      && page[..|PageStart()|] == PageStart()
      && page[|page| - |DocumentTail|..] == DocumentTail
      && page[|PageStart()|..|page| - |DocumentTail|] == rows
  {
    Slices(PageStart(), rows, DocumentTail);
  }

  /** Slicing a concatenation of three strings recovers each of them. */
  lemma Slices(a: string, b: string, c: string)
    ensures var s := a + b + c;
      s[..|a|] == a && s[|s| - |c|..] == c && s[|a|..|s| - |c|] == b
  {
  }

  /** The loop of `generate_html` that accumulates the rows, then the template filled in. */
  method GenerateHtml(list: seq<Metadata.Track>) returns (html: string)
    ensures html == Page(Rows(list))
  {
    var rows := "";
    assert Table(list[..0]) == [];
    for i := 0 to |list|
      invariant rows == Rows(list[..i])
    {
      rows := AppendRow(rows, list[i]);
      assert list[..i + 1] == list[..i] + [list[i]];
      RowsSnoc(list[..i], list[i]);
    }
    assert list[..|list|] == list;
    html := Page(rows);
  }
}
