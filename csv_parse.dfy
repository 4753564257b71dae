/** A reader for the CSV that the encoder writes, following RFC 4180,
    section 2: fields are separated by commas, records end with a line feed,
    a field that starts with a double quote runs to the matching closing quote
    and a doubled quote inside it stands for one quote.  The lemmas show that
    reading back what the encoder wrote gives the values' texts again. */
module CsvParse {

  import opened CsvFormat
  import opened Wrappers

  /** The body of a quoted field, after its opening quote: the unescaped
      text and what follows the closing quote. */
  function ParseQuoted(s: string): (r: Option<(string, string)>)
    ensures r.Some? ==> |r.value.1| < |s|
    decreases |s|
  {
    if s == [] then None
    else if s[0] == '"' then
      if |s| >= 2 && s[1] == '"' then
        match ParseQuoted(s[2..])
        case None => None
        case Some((t, rest)) => Some(("\"" + t, rest))
      else Some(("", s[1..]))
    else
      match ParseQuoted(s[1..])
      case None => None
      case Some((t, rest)) => Some(([s[0]] + t, rest))
  }

  /** An unquoted field: everything up to the next comma or line feed. */
  function ParseBare(s: string): (r: (string, string))
    ensures |r.1| <= |s|
    decreases |s|
  {
    if s == [] || s[0] == ',' || s[0] == '\n' then ("", s)
    else
      var (t, rest) := ParseBare(s[1..]);
      ([s[0]] + t, rest)
  }

  function ParseField(s: string): (r: Option<(string, string)>)
    ensures r.Some? ==> |r.value.1| <= |s|
  {
    if s != [] && s[0] == '"' then ParseQuoted(s[1..]) else Some(ParseBare(s))
  }

  /** The fields of one record, and the text after its line feed. */
  function ParseRecord(s: string): (r: Option<(seq<string>, string)>)
    ensures r.Some? ==> |r.value.1| < |s|
    decreases |s|
  {
    match ParseField(s)
    case None => None
    case Some((f, rest)) =>
      if rest != [] && rest[0] == '\n' then Some(([f], rest[1..]))
      else if rest != [] && rest[0] == ',' then
        match ParseRecord(rest[1..])
        case None => None
        case Some((fs, after)) => Some(([f] + fs, after))
      else None
  }

  /** A whole document: records until the text is used up. */
  function ParseCsv(s: string): Option<seq<seq<string>>>
    decreases |s|
  {
    if s == [] then Some([])
    else
      match ParseRecord(s)
      case None => None
      case Some((fields, rest)) =>
        match ParseCsv(rest)
        case None => None
        case Some(records) => Some([fields] + records)
  }

  /** What may follow a field in an encoded record. */
  predicate FieldEnd(rest: string)
  {
    rest != [] && (rest[0] == ',' || rest[0] == '\n')
  }

  lemma {:induction false} QuotedRoundTrip(t: string, rest: string)
    requires rest == [] || rest[0] != '"'
    ensures ParseQuoted(Escape(t) + "\"" + rest) == Some((t, rest))
    decreases |t|
  {
    var s := Escape(t) + "\"" + rest;
    if t == [] {
      assert s == "\"" + rest;
      assert s[1..] == rest;
    } else {
      var u := Escape(t[1..]) + "\"" + rest;
      QuotedRoundTrip(t[1..], rest);
      Strings.Regroup(Escape(t[1..]), "\"", rest, "");
      if t[0] == '"' {
        Strings.Regroup("\"\"", Escape(t[1..]), "\"", rest);
        assert s == "\"\"" + u;
        assert s[2..] == u;
        assert "\"" + t[1..] == t;
      } else {
        Strings.Regroup([t[0]], Escape(t[1..]), "\"", rest);
        assert s == [t[0]] + u;
        assert s[1..] == u;
        assert [t[0]] + t[1..] == t;
      }
    }
  }

  lemma {:induction false} BareRoundTrip(t: string, rest: string)
    requires ',' !in t && '\n' !in t
    requires FieldEnd(rest)
    ensures ParseBare(t + rest) == (t, rest)
    decreases |t|
  {
    if t == [] {
      assert t + rest == rest;
    } else {
      assert (t + rest)[1..] == t[1..] + rest;
      BareRoundTrip(t[1..], rest);
      assert [t[0]] + t[1..] == t;
    }
  }

  /** Reading a rendered field back gives the value's text. */
  lemma {:induction false} FieldRoundTrip(v: Value, rest: string)
    requires FieldEnd(rest)
    ensures ParseField(RenderField(v) + rest) == Some((Text(v), rest))
  {
    var t := Text(v);
    if NeedsQuoting(t) {
      var body := Escape(t) + "\"" + rest;
      Strings.Regroup("\"", Escape(t), "\"", rest);
      Strings.Regroup(Escape(t), "\"", rest, "");
      assert RenderField(v) + rest == "\"" + body;
      assert ("\"" + body)[1..] == body;
      QuotedRoundTrip(t, rest);
    } else {
      BareRoundTrip(t, rest);
    }
  }

  /** Two values rendered alike have the same text. */
  lemma RenderedTextsAgree(a: Value, b: Value)
    requires RenderField(a) == RenderField(b)
    ensures Text(a) == Text(b)
  {
    FieldRoundTrip(a, ",");
    FieldRoundTrip(b, ",");
  }

  /** One record: its first field, then a comma and the others, or the
      line feed. */
  lemma EncodeValuesFirst(vals: seq<Value>)
    requires |vals| >= 1
    ensures |vals| == 1 ==> EncodeValues(vals) == RenderField(vals[0]) + "\n"
    ensures |vals| >= 2 ==>
      EncodeValues(vals) == RenderField(vals[0]) + "," + EncodeValues(vals[1..])
  {
    if |vals| >= 2 {
      var r := RenderAll(vals);
      assert RenderAll(vals[1..]) == r[1..];
      Strings.Regroup(r[0], ",", Strings.JoinWith(r[1..], ','), "\n");
    }
  }

  lemma TextAllFirst(vals: seq<Value>)
    requires |vals| >= 1
    ensures TextAll(vals) == [Text(vals[0])] + TextAll(vals[1..])
  {
  }

  /** Reading back one encoded record gives the texts of its values, in
      order, and leaves what followed it. */
  lemma {:induction false} RecordRoundTrip(vals: seq<Value>, rest: string)
    requires |vals| >= 1
    ensures ParseRecord(EncodeValues(vals) + rest) == Some((TextAll(vals), rest))
    decreases |vals|
  {
    var field := RenderField(vals[0]);
    EncodeValuesFirst(vals);
    TextAllFirst(vals);
    if |vals| == 1 {
      Strings.Regroup(field, "\n", rest, "");
      FieldRoundTrip(vals[0], "\n" + rest);
      assert ("\n" + rest)[1..] == rest;
      assert TextAll(vals[1..]) == [];
      assert EncodeValues(vals) + rest == field + ("\n" + rest);
      assert ParseField(field + ("\n" + rest)) == Some((Text(vals[0]), "\n" + rest));
      assert ParseRecord(field + ("\n" + rest)) == Some(([Text(vals[0])], rest));
      assert TextAll(vals) == [Text(vals[0])];
    } else {
      var tail := EncodeValues(vals[1..]) + rest;
      Strings.Regroup(field, ",", EncodeValues(vals[1..]), rest);
      FieldRoundTrip(vals[0], "," + tail);
      assert ("," + tail)[1..] == tail;
      RecordRoundTrip(vals[1..], rest);
    }
  }

  /** The encoded records one after the other. */
  function EncodeAll(rows: seq<seq<Value>>): string
    decreases |rows|
  {
    if rows == [] then "" else EncodeValues(rows[0]) + EncodeAll(rows[1..])
  }

  lemma {:induction false} EncodeAllAppend(rows: seq<seq<Value>>, row: seq<Value>)
    ensures EncodeAll(rows + [row]) == EncodeAll(rows) + EncodeValues(row)
    decreases |rows|
  {
    if rows == [] {
      assert [] + [row] == [row];
      assert [row][1..] == [];
    } else {
      assert (rows + [row])[1..] == rows[1..] + [row];
      EncodeAllAppend(rows[1..], row);
    }
  }

  /** The texts of every value of every row. */
  function TextRows(rows: seq<seq<Value>>): (r: seq<seq<string>>)
    ensures |r| == |rows|
    ensures forall i :: 0 <= i < |rows| ==> r[i] == TextAll(rows[i])
  {
    seq(|rows|, i requires 0 <= i < |rows| => TextAll(rows[i]))
  }

  lemma TextRowsFirst(rows: seq<seq<Value>>)
    requires rows != []
    ensures TextRows(rows) == [TextAll(rows[0])] + TextRows(rows[1..])
  {
  }

  /** Writing N records and reading the text back yields N records whose
      fields are the texts of the values written, in the order written. */
  lemma {:induction false} DocumentRoundTrip(rows: seq<seq<Value>>)
    requires forall i :: 0 <= i < |rows| ==> |rows[i]| >= 1
    ensures ParseCsv(EncodeAll(rows)) == Some(TextRows(rows))
    decreases |rows|
  {
    if rows != [] {
      var tail := EncodeAll(rows[1..]);
      RecordRoundTrip(rows[0], tail);
      DocumentRoundTrip(rows[1..]);
      TextRowsFirst(rows);
    }
  }
}
