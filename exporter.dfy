/**
 * The CSV report (`exportToCSV`): a byte order mark, a header line of nine column names and
 * one line per work order, fields separated by `;`. The client, phone, equipment, service,
 * status and price are wrapped in double quotes as they are; only the notes have their
 * inner quotes doubled.
 *
 * A reader of such files (section 2 of RFC 4180, with `;` for the comma) is modelled too,
 * to say what a spreadsheet gets back from a line.
 */
module Exporter {
  import opened Wrappers
  import opened Text
  import opened Types

  const Headers: seq<string> :=
    ["OS", "Data", "Cliente", "Telefone", "Equipamento", "Defeito/Serviço", "Status", "Valor", "Observações"]

  const Separator: string := ";"

  /** The byte order mark that makes spreadsheets read the file as UTF-8. */
  const Bom: string := "\U{FEFF}"

  // ---------------------------------------------------------------------------------------
  // Writing

  /** `s.replace(/"/g, '""')`. */
  function EscapeQuotes(s: string): (r: string)
    ensures |r| >= |s|
  {
    if s == [] then [] else (if s[0] == '"' then "\"\"" else [s[0]]) + EscapeQuotes(s[1..])
  }

  function Quote(s: string): string { "\"" + s + "\"" }

  /** The nine fields of a line, as written. */
  function Fields(item: WorkOrder): (r: seq<string>)
    ensures |r| == |Headers|
  {
    [ IntToString(item.os), item.data,
      Quote(item.cliente), Quote(item.telefone), Quote(item.impressora),
      Quote(item.orcamento), Quote(item.status), Quote(item.valor),
      Quote(EscapeQuotes(item.obs)) ]
  }

  function Row(item: WorkOrder): string { Join(Fields(item), Separator) }

  function Rows(data: seq<WorkOrder>, row: WorkOrder -> string): (r: seq<string>)
    ensures |r| == |data| && forall i | 0 <= i < |data| :: r[i] == row(data[i])
  {
    seq(|data|, i requires 0 <= i < |data| => row(data[i]))
  }

  /** The header, then one line per order, after the byte order mark; nothing for no orders. */
  function Content(data: seq<WorkOrder>, row: WorkOrder -> string): (r: Option<string>)
    ensures r.None? <==> data == []
  {
    if data == [] then None
    else Some(Bom + Join([Join(Headers, Separator)] + Rows(data, row), "\n"))
  }

  /** The text handed to the download. */
  function CsvContent(data: seq<WorkOrder>): (r: Option<string>)
    ensures r.None? <==> data == []
  {
    Content(data, Row)
  }

  // ---------------------------------------------------------------------------------------
  // Reading

  /**
   * The inside of a quoted field, up to its closing quote: `""` stands for one quote. The
   * text after the closing quote is handed back; an unclosed field reads as nothing.
   */
  function ReadQuoted(s: string): (r: Option<(string, string)>)
    ensures r.Some? ==> |r.value.1| < |s|
    decreases |s|
  {
    if s == [] then None
    else if s[0] == '"' then
      if |s| > 1 && s[1] == '"' then
        match ReadQuoted(s[2..])
        case None => None
        case Some((v, rest)) => Some(("\"" + v, rest))
      else Some(("", s[1..]))
    else
      match ReadQuoted(s[1..])
      case None => None
      case Some((v, rest)) => Some(([s[0]] + v, rest))
  }

  /** The first index of `;` in `s`, or its length. */
  function FieldEnd(s: string): (k: nat)
    ensures k <= |s| && (k == |s| || s[k] == ';') && ';' !in s[..k]
  {
    if s == [] then 0
    else if s[0] == ';' then 0
    else
      var k := FieldEnd(s[1..]);
      assert s[..k + 1] == [s[0]] + s[1..][..k];
      k + 1
  }

  /**
   * The values of the fields of one line. A field starting with a quote is quoted and
   * must be followed by `;` or the end of the line; a field that does not start with one
   * may not hold one. Anything else is malformed and reads as nothing.
   */
  function ReadFields(s: string): (r: Option<seq<string>>)
    decreases |s|
  {
    if |s| > 0 && s[0] == '"' then
      match ReadQuoted(s[1..])
      case None => None
      case Some((v, rest)) =>
        if rest == [] then Some([v])
        else if rest[0] != ';' then None
        else
          match ReadFields(rest[1..])
          case None => None
          case Some(vs) => Some([v] + vs)
    else
      var k := FieldEnd(s);
      if '"' in s[..k] then None
      else if k == |s| then Some([s])
      else
        match ReadFields(s[k + 1..])
        case None => None
        case Some(vs) => Some([s[..k]] + vs)
  }

  // ---------------------------------------------------------------------------------------
  // Reading back what was written

  /** A field written without quotes that a reader takes as it is. */
  predicate Bare(s: string) { ';' !in s && '"' !in s }

  /** One field as the corrected exporter writes it: bare, or quoted with quotes doubled. */
  datatype Cell = Plain(text: string) | Escaped(text: string)

  function Encode(c: Cell): string {
    match c
    case Plain(t) => t
    case Escaped(t) => Quote(EscapeQuotes(t))
  }

  function Encoded(cs: seq<Cell>): (r: seq<string>)
    ensures |r| == |cs| && forall i | 0 <= i < |cs| :: r[i] == Encode(cs[i])
  {
    seq(|cs|, i requires 0 <= i < |cs| => Encode(cs[i]))
  }

  function Texts(cs: seq<Cell>): (r: seq<string>)
    ensures |r| == |cs| && forall i | 0 <= i < |cs| :: r[i] == cs[i].text
  {
    seq(|cs|, i requires 0 <= i < |cs| => cs[i].text)
  }

  /** A doubled quote reads as one quote, and the closing quote ends the field. */
  lemma {:induction false} ReadEscaped(x: string, rest: string)
    requires rest == [] || rest[0] != '"'
    ensures ReadQuoted(EscapeQuotes(x) + "\"" + rest) == Some((x, rest))
    decreases |x|
  {
    var s := EscapeQuotes(x) + "\"" + rest;
    if x == [] {
      assert s == "\"" + rest;
      assert s[1..] == rest;
    } else {
      ReadEscaped(x[1..], rest);
      ReadEscapedStep(x, rest);
    }
  }

  lemma ReadEscapedStep(x: string, rest: string)
    requires x != [] && ReadQuoted(EscapeQuotes(x[1..]) + "\"" + rest) == Some((x[1..], rest))
    ensures ReadQuoted(EscapeQuotes(x) + "\"" + rest) == Some((x, rest))
  {
    var e := EscapeQuotes(x[1..]);
    var tail := e + "\"" + rest;
    var head := if x[0] == '"' then "\"\"" else [x[0]];
    assert EscapeQuotes(x) == head + e;
    assert EscapeQuotes(x) + "\"" + rest == head + tail;
    assert x == [x[0]] + x[1..];
    if x[0] == '"' {
      ReadDoubledQuote(tail, x[1..], rest);
    } else {
      ReadOtherChar(x[0], tail, x[1..], rest);
    }
  }

  lemma ReadDoubledQuote(tail: string, v: string, rest: string)
    requires ReadQuoted(tail) == Some((v, rest))
    ensures ReadQuoted("\"\"" + tail) == Some(("\"" + v, rest))
  {
    assert ("\"\"" + tail)[2..] == tail;
  }

  lemma ReadOtherChar(ch: char, tail: string, v: string, rest: string)
    requires ch != '"' && ReadQuoted(tail) == Some((v, rest))
    ensures ReadQuoted([ch] + tail) == Some(([ch] + v, rest))
  {
    assert ([ch] + tail)[1..] == tail;
  }

  lemma {:induction false} ReadLastCell(c: Cell)
    requires c.Plain? ==> Bare(c.text)
    ensures ReadFields(Encode(c)) == Some([c.text])
  {
    match c
    case Plain(t) =>
      assert FieldEnd(t) == |t|;
      assert t[..|t|] == t;
    case Escaped(t) =>
      var s := Encode(c);
      ReadEscaped(t, []);
      assert s[1..] == EscapeQuotes(t) + "\"" + [];
  }

  lemma ReadCell(c: Cell, rest: string)
    requires c.Plain? ==> Bare(c.text)
    ensures ReadFields(Encode(c) + Separator + rest) ==
      match ReadFields(rest)
      case None => None
      case Some(vs) => Some([c.text] + vs)
  {
    match c
    case Plain(t) => ReadPlainCell(t, rest);
    case Escaped(t) => ReadEscapedCell(t, rest);
  }

  lemma ReadPlainCell(t: string, rest: string)
    requires Bare(t)
    ensures ReadFields(t + Separator + rest) ==
      match ReadFields(rest)
      case None => None
      case Some(vs) => Some([t] + vs)
  {
    var s := t + Separator + rest;
    PlainEnd(t, rest);
    assert s[..|t|] == t && s[|t| + 1..] == rest;
    assert s[0] != '"' by {
      assert t != [] ==> s[0] == t[0];
    }
  }

  lemma ReadEscapedCell(t: string, rest: string)
    ensures ReadFields(Quote(EscapeQuotes(t)) + Separator + rest) ==
      match ReadFields(rest)
      case None => None
      case Some(vs) => Some([t] + vs)
  {
    var s := Quote(EscapeQuotes(t)) + Separator + rest;
    ReadEscaped(t, Separator + rest);
    assert s[1..] == EscapeQuotes(t) + "\"" + (Separator + rest);
    assert (Separator + rest)[1..] == rest;
  }

  lemma PlainEnd(t: string, rest: string)
    requires ';' !in t
    ensures FieldEnd(t + Separator + rest) == |t|
  {
    var s := t + Separator + rest;
    var k := FieldEnd(s);
    assert forall j | 0 <= j < |t| :: s[j] == t[j];
    assert s[|t|] == ';';
    InPrefix(s, |t|, k);
  }

  lemma InPrefix(s: string, j: nat, k: nat)
    ensures j < k <= |s| ==> s[j] in s[..k]
  {
    if j < k <= |s| {
      assert s[..k][j] == s[j];
    }
  }

  /** A reader gets back the texts of cells written bare or quoted with quotes doubled. */
  lemma {:induction false} ReadEncoded(cs: seq<Cell>)
    requires cs != []
    requires forall i | 0 <= i < |cs| :: cs[i].Plain? ==> Bare(cs[i].text)
    ensures ReadFields(Join(Encoded(cs), Separator)) == Some(Texts(cs))
  {
    if |cs| == 1 {
      ReadLastCell(cs[0]);
      assert Texts(cs) == [cs[0].text];
    } else {
      ReadEncoded(cs[1..]);
      EncodedCons(cs);
      ReadCell(cs[0], Join(Encoded(cs[1..]), Separator));
    }
  }

  /** The first cell of a line, then the separator, then the rest. */
  lemma EncodedCons(cs: seq<Cell>)
    requires |cs| > 1
    ensures Join(Encoded(cs), Separator) == Encode(cs[0]) + Separator + Join(Encoded(cs[1..]), Separator)
    ensures Texts(cs) == [cs[0].text] + Texts(cs[1..])
  {
    assert Encoded(cs)[1..] == Encoded(cs[1..]);
  }

  // ---------------------------------------------------------------------------------------
  // Corrected writer

  /** The cells of a line with every quoted field escaped. */
  function Cells(item: WorkOrder): (r: seq<Cell>)
    ensures |r| == |Headers|
  {
    [ Plain(IntToString(item.os)), Plain(item.data),
      Escaped(item.cliente), Escaped(item.telefone), Escaped(item.impressora),
      Escaped(item.orcamento), Escaped(item.status), Escaped(item.valor),
      Escaped(item.obs) ]
  }

  /** The values a line stands for, in column order. */
  function Values(item: WorkOrder): seq<string> {
    [ IntToString(item.os), item.data, item.cliente, item.telefone, item.impressora,
      item.orcamento, item.status, item.valor, item.obs ]
  }

  function RowEscaped(item: WorkOrder): string { Join(Encoded(Cells(item)), Separator) }

  lemma IntTextBare(i: int)
    ensures Bare(IntToString(i))
  {
    var n: nat := if i < 0 then -i else i;
    var d := NatToString(n);
    assert forall k | 0 <= k < |d| :: IsDigit(d[k]);
    assert ';' !in d && '"' !in d;
  }

  /** A reader gets every value of a corrected line back, whatever quotes the texts hold. */
  lemma ReadRowEscaped(item: WorkOrder)
    requires Bare(item.data)
    ensures ReadFields(RowEscaped(item)) == Some(Values(item))
  {
    IntTextBare(item.os);
    var cs := Cells(item);
    forall i | 0 <= i < |cs| && cs[i].Plain?
      ensures Bare(cs[i].text)
    {
      assert i == 0 || i == 1;
    }
    ReadEncoded(cs);
    TextsOfCells(item);
  }

  lemma TextsOfCells(item: WorkOrder)
    ensures Texts(Cells(item)) == Values(item)
  {
    var cs, ts, vs := Cells(item), Texts(Cells(item)), Values(item);
    forall i | 0 <= i < 9
      ensures ts[i] == vs[i]
    {
      assert ts[i] == cs[i].text;
    }
  }

  lemma {:induction false} EscapeQuoteFree(s: string)
    requires '"' !in s
    ensures EscapeQuotes(s) == s
  {
    if s != [] {
      assert s[0] != '"';
      assert s == [s[0]] + s[1..];
      EscapeQuoteFree(s[1..]);
    }
  }

  /** The line as written is the corrected line when only the notes hold quotes. */
  lemma RowQuoteFree(item: WorkOrder)
    requires '"' !in item.cliente && '"' !in item.telefone && '"' !in item.impressora
    requires '"' !in item.orcamento && '"' !in item.status && '"' !in item.valor
    ensures Row(item) == RowEscaped(item)
  {
    EscapeQuoteFree(item.cliente);
    EscapeQuoteFree(item.telefone);
    EscapeQuoteFree(item.impressora);
    EscapeQuoteFree(item.orcamento);
    EscapeQuoteFree(item.status);
    EscapeQuoteFree(item.valor);
    EncodedCells(item);
  }

  /** The corrected line's fields, one by one. */
  lemma EncodedCells(item: WorkOrder)
    ensures Encoded(Cells(item)) ==
      [ IntToString(item.os), item.data,
        Quote(EscapeQuotes(item.cliente)), Quote(EscapeQuotes(item.telefone)),
        Quote(EscapeQuotes(item.impressora)), Quote(EscapeQuotes(item.orcamento)),
        Quote(EscapeQuotes(item.status)), Quote(EscapeQuotes(item.valor)),
        Quote(EscapeQuotes(item.obs)) ]
  {
  }

  /**
   * A line as written reads back as its nine values whenever the date has no `;` or `"` and
   * only the notes hold quotes: the one case the exporter's quoting handles.
   */
  lemma RowReadsBack(item: WorkOrder)
    requires Bare(item.data)
    requires '"' !in item.cliente && '"' !in item.telefone && '"' !in item.impressora
    requires '"' !in item.orcamento && '"' !in item.status && '"' !in item.valor
    ensures ReadFields(Row(item)) == Some(Values(item))
  {
    RowQuoteFree(item);
    ReadRowEscaped(item);
  }

  /** The first three fields of a line as written, and the rest. */
  lemma RowFront(item: WorkOrder)
    ensures var f := Fields(item);
      Row(item) == f[0] + Separator + f[1] + Separator + f[2] + Separator + Join(f[3..], Separator)
  {
    var f := Fields(item);
    assert f == [f[0]] + f[1..];
    JoinCons(f[0], f[1..], Separator);
    assert f[1..] == [f[1]] + f[2..];
    JoinCons(f[1], f[2..], Separator);
    assert f[2..] == [f[2]] + f[3..];
    JoinCons(f[2], f[3..], Separator);
  }

  /** A lone quote inside a quoted third field makes the line unreadable. */
  lemma MisreadLine(x: string, y: string, rest: string)
    requires Bare(x) && Bare(y)
    ensures ReadFields(x + Separator + y + Separator + "\"a\"b\"" + Separator + rest).None?
  {
    var z := "\"a\"b\"" + Separator + rest;
    assert x + Separator + y + Separator + "\"a\"b\"" + Separator + rest == x + Separator + (y + Separator + z);
    ReadPlainCell(x, y + Separator + z);
    ReadPlainCell(y, z);
    LoneQuote(rest);
  }

  /** `"a"b"`: the field closes after `a`, and `b` follows where `;` should. */
  lemma LoneQuote(rest: string)
    ensures ReadFields("\"a\"b\"" + Separator + rest).None?
  {
    var z := "\"a\"b\"" + Separator + rest;
    var u := "b\"" + Separator + rest;
    var w := "\"" + Separator + rest;
    assert w[0] == '"' && w[1] == ';' && w[1..] == Separator + rest;
    assert ReadQuoted(w) == Some(("", Separator + rest));
    assert u[0] == 'b' && u[1..] == w;
    assert [u[0]] + "" == "b";
    assert ReadQuoted(u) == Some(("b", Separator + rest));
    var v := z[1..];
    assert v == "a\"" + u;
    assert v[0] == 'a' && v[1..] == "\"" + u;
    assert v[1..][0] == '"' && v[1..][1] == 'b' && v[1..][1..] == u;
    assert ReadQuoted(v[1..]) == Some(("", u));
    assert [v[0]] + "" == "a";
    assert ReadQuoted(v) == Some(("a", u));
  }

  /**
   * A quote in the client's name leaves its field unescaped: the line written for the
   * client `a"b` does not read back at all.
   */
  lemma RowMisread(item: WorkOrder)
    requires item.cliente == "a\"b" && Bare(item.data)
    ensures ReadFields(Row(item)).None?
  {
    RowFront(item);
    IntTextBare(item.os);
    var f := Fields(item);
    assert f[2] == "\"a\"b\"";
    MisreadLine(f[0], f[1], Join(f[3..], Separator));
  }

  // ---------------------------------------------------------------------------------------
  // Lines

  lemma {:induction false} SplitJoin(parts: seq<string>, c: char)
    requires parts != [] && forall i | 0 <= i < |parts| :: c !in parts[i]
    ensures Split(Join(parts, [c]), c) == parts
  {
    if |parts| == 1 {
      SplitLacking(parts[0], c);
    } else {
      SplitJoin(parts[1..], c);
      SplitConcat(parts[0], c, Join(parts[1..], [c]));
    }
  }

  lemma {:induction false} SplitLacking(s: string, c: char)
    requires c !in s
    ensures Split(s, c) == [s]
  {
  }

  lemma {:induction false} SplitConcat(a: string, c: char, b: string)
    requires c !in a
    ensures Split(a + [c] + b, c) == [a] + Split(b, c)
    decreases |a|
  {
    var s := a + [c] + b;
    if a == [] {
      assert s[1..] == b;
    } else {
      assert s[1..] == a[1..] + [c] + b;
      SplitConcat(a[1..], c, b);
      assert a == [a[0]] + a[1..];
    }
  }

  /** No value of the order holds a line break. */
  predicate SingleLine(item: WorkOrder) {
    forall k | 0 <= k < |Values(item)| :: '\n' !in Values(item)[k]
  }

  /**
   * Past the byte order mark, the content splits at line breaks into the header and one
   * line per order, in the order of the list, when no value holds a line break.
   */
  lemma ContentLines(data: seq<WorkOrder>, row: WorkOrder -> string)
    requires data != [] && forall i | 0 <= i < |data| :: '\n' !in row(data[i])
    ensures Content(data, row).Some?
    ensures var c := Content(data, row).value;
      && c[..1] == Bom
      && Split(c[1..], '\n') == [Join(Headers, Separator)] + Rows(data, row)
  {
    var rows := Rows(data, row);
    JoinLacks(Headers, Separator, '\n');
    SplitLines(Join(Headers, Separator), rows);
    BomPrefix(Join([Join(Headers, Separator)] + rows, "\n"));
  }

  lemma CsvLines(data: seq<WorkOrder>)
    requires data != [] && forall i | 0 <= i < |data| :: SingleLine(data[i])
    ensures CsvContent(data).Some?
    ensures var c := CsvContent(data).value;
      && c[..1] == Bom
      && Split(c[1..], '\n') == [Join(Headers, Separator)] + Rows(data, Row)
  {
    forall i | 0 <= i < |data| ensures '\n' !in Row(data[i]) {
      RowSingleLine(data[i]);
    }
    ContentLines(data, Row);
  }

  /** The content with every quoted field escaped. */
  function CorrectedCsvContent(data: seq<WorkOrder>): (r: Option<string>)
    ensures r.None? <==> data == []
  {
    Content(data, RowEscaped)
  }

  /**
   * A reader of the corrected content gets the header and then, line by line, every value
   * of every order back, in the order of the list.
   */
  lemma CorrectedCsvReadsBack(data: seq<WorkOrder>)
    requires data != []
    requires forall i | 0 <= i < |data| :: SingleLine(data[i]) && Bare(data[i].data)
    ensures var lines := Split(CorrectedCsvContent(data).value[1..], '\n');
      && |lines| == |data| + 1
      && lines[0] == Join(Headers, Separator)
      && forall i | 0 <= i < |data| :: ReadFields(lines[i + 1]) == Some(Values(data[i]))
  {
    forall i | 0 <= i < |data| ensures '\n' !in RowEscaped(data[i]) {
      RowEscapedSingleLine(data[i]);
    }
    ContentLines(data, RowEscaped);
    var lines := Split(CorrectedCsvContent(data).value[1..], '\n');
    forall i | 0 <= i < |data| ensures ReadFields(lines[i + 1]) == Some(Values(data[i])) {
      assert lines[i + 1] == RowEscaped(data[i]);
      ReadRowEscaped(data[i]);
    }
  }

  lemma SplitLines(h: string, rows: seq<string>)
    requires '\n' !in h && forall i | 0 <= i < |rows| :: '\n' !in rows[i]
    ensures Split(Join([h] + rows, "\n"), '\n') == [h] + rows
  {
    var lines := [h] + rows;
    forall i | 0 <= i < |lines| ensures '\n' !in lines[i] {
      assert lines[i] == if i == 0 then h else rows[i - 1];
    }
    SplitJoin(lines, '\n');
  }

  lemma BomPrefix(t: string)
    ensures (Bom + t)[..1] == Bom && (Bom + t)[1..] == t
  {
  }

  lemma {:induction false} EscapeKeepsOthers(s: string, ch: char)
    requires ch != '"' && ch !in s
    ensures ch !in EscapeQuotes(s)
  {
    if s != [] {
      assert s == [s[0]] + s[1..];
      EscapeKeepsOthers(s[1..], ch);
    }
  }

  lemma QuoteLacks(s: string, ch: char)
    requires ch != '"' && ch !in s
    ensures ch !in Quote(s)
  {
  }

  lemma RowSingleLine(item: WorkOrder)
    requires SingleLine(item)
    ensures '\n' !in Row(item)
  {
    var v := Values(item);
    assert v[0] == IntToString(item.os) && v[1] == item.data && v[8] == item.obs;
    assert v[2] == item.cliente && v[3] == item.telefone && v[4] == item.impressora;
    assert v[5] == item.orcamento && v[6] == item.status && v[7] == item.valor;
    assert '\n' !in v[0] && '\n' !in v[1] && '\n' !in v[2] && '\n' !in v[3] && '\n' !in v[4];
    assert '\n' !in v[5] && '\n' !in v[6] && '\n' !in v[7] && '\n' !in v[8];
    EscapeKeepsOthers(item.obs, '\n');
    QuoteLacks(EscapeQuotes(item.obs), '\n');
    QuoteLacks(item.cliente, '\n');
    QuoteLacks(item.telefone, '\n');
    QuoteLacks(item.impressora, '\n');
    QuoteLacks(item.orcamento, '\n');
    QuoteLacks(item.status, '\n');
    QuoteLacks(item.valor, '\n');
    var f := Fields(item);
    assert forall k | 0 <= k < |f| :: '\n' !in f[k];
    JoinLacks(f, Separator, '\n');
  }

  lemma RowEscapedSingleLine(item: WorkOrder)
    requires SingleLine(item)
    ensures '\n' !in RowEscaped(item)
  {
    var v := Values(item);
    var cs := Cells(item);
    var e := Encoded(cs);
    IntTextBare(item.os);
    forall k | 0 <= k < |e| ensures '\n' !in e[k] {
      assert cs[k].text == v[k];
      assert '\n' !in v[k];
      if cs[k].Escaped? {
        EscapeKeepsOthers(cs[k].text, '\n');
        QuoteLacks(EscapeQuotes(cs[k].text), '\n');
      }
    }
    JoinLacks(e, Separator, '\n');
  }
}
