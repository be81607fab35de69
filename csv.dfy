/**
 * `ReportGenerator.to_csv`: a header line and one line per result, or a
 * fixed placeholder when there are no results. Title and description are
 * wrapped in double quotes with embedded quotes doubled; source, URL and
 * timestamp are written as they are. A reader for this layout shows what
 * the escaping guarantees: it gives every field back.
 */
module Csv {
  import opened Wrappers
  import opened Records
  import opened Text

  const Placeholder: string := "No results found"
  const Header: string := "source,title,description,url,timestamp\n"

  /** `'"' + s.replace('"', '""') + '"'`. */
  function Quoted(s: string): string {
    "\"" + Replace(s, "\"", "\"\"") + "\""
  }

  /** One output line: `','.join(row) + '\n'`. */
  function Row(r: Record): string {
    Join([Field(r, "source", ""), Quoted(Field(r, "title", "")), Quoted(Field(r, "description", "")),
          Field(r, "url", ""), Field(r, "timestamp", "")], ",") + "\n"
  }

  /** The lines for `rs`, in order. */
  function Rows(rs: seq<Record>): string
    decreases |rs|
  {
    if rs == [] then "" else Row(rs[0]) + Rows(rs[1..])
  }

  /** The whole report. */
  function Report(rs: seq<Record>): string {
    if rs == [] then Placeholder else Header + Rows(rs)
  }

  lemma {:induction false} RowsSnoc(rs: seq<Record>, r: Record)
    ensures Rows(rs + [r]) == Rows(rs) + Row(r)
    decreases |rs|
  {
    if rs == [] {
      assert [r][1..] == [];
    } else {
      assert (rs + [r])[1..] == rs[1..] + [r];
      RowsSnoc(rs[1..], r);
    }
  }

  lemma RowsGrow(rs: seq<Record>, i: nat)
    requires i < |rs|
    ensures Header + Rows(rs[..i]) + Row(rs[i]) == Header + Rows(rs[..i + 1])
  {
    assert rs[..i + 1] == rs[..i] + [rs[i]];
    RowsSnoc(rs[..i], rs[i]);
  }

  /** The writer's loop: `output` grows by one line per result. */
  method ToCsv(results: seq<Record>) returns (output: string)
    ensures output == Report(results)
  {
    if results == [] {
      return Placeholder;
    }
    output := Header;
    for i := 0 to |results|
      invariant output == Header + Rows(results[..i])
    {
      RowsGrow(results, i);
      output := output + Row(results[i]);
    }
    assert results[..|results|] == results;
  }

  /** The five fields of a line, as a reader sees them. */
  datatype Fields = Fields(source: string, title: string, description: string, url: string, timestamp: string)

  /** What the writer takes from a result: each field, or `''` when the key is missing. */
  function FieldsOf(r: Record): Fields {
    Fields(Field(r, "source", ""), Field(r, "title", ""), Field(r, "description", ""),
           Field(r, "url", ""), Field(r, "timestamp", ""))
  }

  function AllFieldsOf(rs: seq<Record>): (fs: seq<Fields>)
    ensures |fs| == |rs|
    ensures forall i :: 0 <= i < |rs| ==> fs[i] == FieldsOf(rs[i])
    decreases |rs|
  {
    if rs == [] then [] else [FieldsOf(rs[0])] + AllFieldsOf(rs[1..])
  }

  /** The text up to the first `d`, and what follows that `d`. */
  function SplitAt(s: string, d: char): (r: Option<(string, string)>)
    ensures r.Some? ==> |r.value.1| < |s|
    decreases |s|
  {
    if s == [] then None
    else if s[0] == d then Some(([], s[1..]))
    else
      match SplitAt(s[1..], d)
      case None => None
      case Some(p) => Some(([s[0]] + p.0, p.1))
  }

  /**
   * The body of a quoted field, read after its opening quote: `""` stands
   * for one quote and a single quote closes the field.
   */
  function Unquote(s: string): (r: Option<(string, string)>)
    ensures r.Some? ==> |r.value.1| < |s|
    decreases |s|
  {
    if s == [] then None
    else if s[0] == '"' then
      if |s| >= 2 && s[1] == '"' then
        match Unquote(s[2..])
        case None => None
        case Some(p) => Some(("\"" + p.0, p.1))
      else Some(([], s[1..]))
    else
      match Unquote(s[1..])
      case None => None
      case Some(p) => Some(([s[0]] + p.0, p.1))
  }

  /** A quoted field followed by its comma. */
  function QuotedField(s: string): (r: Option<(string, string)>)
    ensures r.Some? ==> |r.value.1| < |s|
  {
    if s == [] || s[0] != '"' then None
    else
      match Unquote(s[1..])
      case None => None
      case Some(p) => if p.1 != [] && p.1[0] == ',' then Some((p.0, p.1[1..])) else None
  }

  /** One line of the report, and the text after it. */
  function ParseRow(s: string): (r: Option<(Fields, string)>)
    ensures r.Some? ==> |r.value.1| < |s|
  {
    match SplitAt(s, ',')
    case None => None
    case Some(p1) =>
      match QuotedField(p1.1)
      case None => None
      case Some(p2) =>
        match QuotedField(p2.1)
        case None => None
        case Some(p3) =>
          match SplitAt(p3.1, ',')
          case None => None
          case Some(p4) =>
            match SplitAt(p4.1, '\n')
            case None => None
            case Some(p5) => Some((Fields(p1.0, p2.0, p3.0, p4.0, p5.0), p5.1))
  }

  /** All the lines of `s`. */
  function ParseRows(s: string): Option<seq<Fields>>
    decreases |s|
  {
    if s == [] then Some([])
    else
      match ParseRow(s)
      case None => None
      case Some(p) =>
        match ParseRows(p.1)
        case None => None
        case Some(fs) => Some([p.0] + fs)
  }

  /** A report read back: the placeholder means no results. */
  function ParseReport(s: string): Option<seq<Fields>> {
    if s == Placeholder then Some([])
    else if Header <= s then ParseRows(s[|Header|..])
    else None
  }

  lemma {:induction false} SplitAtRoundTrip(t: string, d: char, rest: string)
    requires d !in t
    ensures SplitAt(t + [d] + rest, d) == Some((t, rest))
    decreases |t|
  {
    if t == [] {
      assert t + [d] + rest == [d] + rest;
    } else {
      assert (t + [d] + rest)[1..] == t[1..] + [d] + rest;
      SplitAtRoundTrip(t[1..], d, rest);
      assert [t[0]] + t[1..] == t;
    }
  }

  /** A doubled quote in the field body reads as one quote. */
  lemma UnquoteDoubled(body: string, field: string, rest: string)
    requires Unquote(body) == Some((field, rest))
    ensures Unquote("\"\"" + body) == Some(("\"" + field, rest))
  {
    assert ("\"\"" + body)[2..] == body;
  }

  /** Any other character of the field body reads as itself. */
  lemma UnquotePlain(c: char, body: string, field: string, rest: string)
    requires c != '"'
    requires Unquote(body) == Some((field, rest))
    ensures Unquote([c] + body) == Some(([c] + field, rest))
  {
    assert ([c] + body)[1..] == body;
  }

  /** The quote-doubling is undone by the reader, whatever the field holds. */
  lemma {:induction false} UnquoteRoundTrip(t: string, rest: string)
    requires rest == [] || rest[0] != '"'
    ensures Unquote(Replace(t, "\"", "\"\"") + "\"" + rest) == Some((t, rest))
    decreases |t|
  {
    if t == [] {
      var s := "\"" + rest;
      assert Replace(t, "\"", "\"\"") + "\"" + rest == s;
      assert s[1..] == rest;
    } else {
      var tail := Replace(t[1..], "\"", "\"\"");
      var body := tail + "\"" + rest;
      UnquoteRoundTrip(t[1..], rest);
      assert Unquote(body) == Some((t[1..], rest));
      assert t == [t[0]] + t[1..];
      if t[0] == '"' {
        calc {
          Replace(t, "\"", "\"\"") + "\"" + rest;
          { ReplaceAtMatch("\"", "\"\"", t[1..]); }
          "\"\"" + tail + "\"" + rest;
          "\"\"" + body;
        }
        UnquoteDoubled(body, t[1..], rest);
      } else {
        calc {
          Replace(t, "\"", "\"\"") + "\"" + rest;
          { ReplaceNoMatch(t[0], t[1..], "\"", "\"\""); }
          [t[0]] + tail + "\"" + rest;
          [t[0]] + body;
        }
        UnquotePlain(t[0], body, t[1..], rest);
      }
    }
  }

  lemma QuotedFieldRoundTrip(t: string, rest: string)
    ensures QuotedField(Quoted(t) + [','] + rest) == Some((t, rest))
  {
    var s := Quoted(t) + [','] + rest;
    assert s[1..] == Replace(t, "\"", "\"\"") + "\"" + ("," + rest);
    UnquoteRoundTrip(t, "," + rest);
    assert ("," + rest)[1..] == rest;
  }

  /** The fields the reader can tell apart: no comma inside the unquoted ones, no newline in the last. */
  predicate Readable(r: Record) {
    && ',' !in Field(r, "source", "")
    && ',' !in Field(r, "url", "")
    && '\n' !in Field(r, "timestamp", "")
  }

  lemma RowShape(a: string, b: string, c: string, d: string, e: string, rest: string)
    ensures Join([a, b, c, d, e], ",") + "\n" + rest
         == a + [','] + (b + [','] + (c + [','] + (d + [','] + (e + ['\n'] + rest))))
  {
    assert [a, b, c, d, e][1..] == [b, c, d, e];
    assert [b, c, d, e][1..] == [c, d, e];
    assert [c, d, e][1..] == [d, e];
    assert [d, e][1..] == [e];
    assert Join([d, e], ",") == d + "," + e;
    assert Join([c, d, e], ",") == c + "," + (d + "," + e);
    assert Join([b, c, d, e], ",") == b + "," + (c + "," + (d + "," + e));
    assert Join([a, b, c, d, e], ",") == a + "," + (b + "," + (c + "," + (d + "," + e)));
  }

  lemma RowRoundTrip(r: Record, rest: string)
    requires Readable(r)
    ensures ParseRow(Row(r) + rest) == Some((FieldsOf(r), rest))
  {
    var src, title, desc := Field(r, "source", ""), Field(r, "title", ""), Field(r, "description", "");
    var url, ts := Field(r, "url", ""), Field(r, "timestamp", "");
    var s5 := ts + ['\n'] + rest;
    var s4 := url + [','] + s5;
    var s3 := Quoted(desc) + [','] + s4;
    var s2 := Quoted(title) + [','] + s3;
    RowShape(src, Quoted(title), Quoted(desc), url, ts, rest);
    assert Row(r) + rest == src + [','] + s2;
    SplitAtRoundTrip(src, ',', s2);
    QuotedFieldRoundTrip(title, s3);
    QuotedFieldRoundTrip(desc, s4);
    SplitAtRoundTrip(url, ',', s5);
    SplitAtRoundTrip(ts, '\n', rest);
  }

  lemma {:induction false} RowsRoundTrip(rs: seq<Record>)
    requires forall i :: 0 <= i < |rs| ==> Readable(rs[i])
    ensures ParseRows(Rows(rs)) == Some(AllFieldsOf(rs))
    decreases |rs|
  {
    if rs != [] {
      RowsRoundTrip(rs[1..]);
      RowRoundTrip(rs[0], Rows(rs[1..]));
      assert Rows(rs) != [] by {
        assert |Row(rs[0])| > 0;
      }
    }
  }

  /**
   * Reading the report back gives one entry per result, in order, with
   * every field as the result had it (`''` for a missing key), title and
   * description included whatever quotes, commas or newlines they hold.
   */
  lemma ReportRoundTrip(rs: seq<Record>)
    requires forall i :: 0 <= i < |rs| ==> Readable(rs[i])
    ensures ParseReport(Report(rs)) == Some(AllFieldsOf(rs))
  {
    if rs != [] {
      var s := Header + Rows(rs);
      assert s != Placeholder by {
        assert s[0] == 's' && Placeholder[0] == 'N';
      }
      assert s[|Header|..] == Rows(rs);
      RowsRoundTrip(rs);
    }
  }
}
