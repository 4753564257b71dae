/** How one value of a log entry becomes one CSV field.

    JavaScript values that reach a CSV column are strings, integers, booleans
    or missing.  A column is rendered as `value || ''`: every falsy value
    (`''`, `0`, `false`, missing) becomes the empty field; a string holding a
    comma, a double quote or a line feed is wrapped in double quotes with its
    inner quotes doubled (RFC 4180, section 2, items 6 and 7); other values are
    converted to text as `Array.prototype.join` does. */
module CsvFormat {

  import Strings

  datatype Value = Str(s: string) | Num(n: int) | Bool(b: bool) | Absent

  /** JavaScript truthiness restricted to the values above. */
  predicate Falsy(v: Value)
  {
    match v
    case Str(s) => s == ""
    case Num(n) => n == 0
    case Bool(b) => !b
    case Absent => true
  }

  /** `a || b` */
  function Or(a: Value, b: Value): Value
  {
    if Falsy(a) then b else a
  }

  predicate IsDigit(c: char) { '0' <= c <= '9' }

  /** Decimal text of a natural number, most significant digit first. */
  function NatToString(n: nat): (r: string)
    ensures |r| >= 1
    ensures forall i :: 0 <= i < |r| ==> IsDigit(r[i])
    ensures r[0] == '0' ==> n == 0
    decreases n
  {
    var d := ['0' + (n % 10) as char];
    if n < 10 then d else NatToString(n / 10) + d
  }

  /** `String(n)` for an integer: an optional minus sign, then the digits. */
  function IntToString(n: int): (r: string)
    ensures |r| >= 1
    ensures forall i :: 0 <= i < |r| ==> IsDigit(r[i]) || r[i] == '-'
    ensures r == "0" <==> n == 0
  {
    if n < 0 then "-" + NatToString(-n) else NatToString(n)
  }

  /** The text a column holds before quoting: `String(value || '')`. */
  function Text(v: Value): string
  {
    if Falsy(v) then ""
    else match v
      case Str(s) => s
      case Num(n) => IntToString(n)
      case Bool(_) => "true"
      case Absent => ""
  }

  /** The three characters that force quoting. */
  predicate NeedsQuoting(s: string)
  {
    ',' in s || '"' in s || '\n' in s
  }

  /** `s.replace(/"/g, '""')` */
  function Escape(s: string): (r: string)
    decreases |s|
  {
    if s == [] then ""
    else if s[0] == '"' then "\"\"" + Escape(s[1..])
    else [s[0]] + Escape(s[1..])
  }

  /** A string field as the encoder writes it. */
  function QuoteIfNeeded(s: string): string
  {
    if NeedsQuoting(s) then "\"" + Escape(s) + "\"" else s
  }

  /** One column of a row, exactly as the encoder computes it: only values
      whose type is string are ever quoted.  The contract says that this is
      the same as quoting the column's text whatever its type (integers and
      `true` never hold a special character), and that a field is empty
      exactly when the value is falsy. */
  function RenderField(v: Value): (r: string)
    ensures r == QuoteIfNeeded(Text(v))
    ensures r == "" <==> Falsy(v)
  {
    if Falsy(v) then ""
    else match v
      case Str(s) => QuoteIfNeeded(s)
      case Num(n) =>
        assert !NeedsQuoting(IntToString(n));
        IntToString(n)
      case Bool(_) => "true"
      case Absent => ""
  }

  function RenderAll(vals: seq<Value>): (r: seq<string>)
    ensures |r| == |vals|
    ensures forall i :: 0 <= i < |vals| ==> r[i] == RenderField(vals[i])
  {
    seq(|vals|, i requires 0 <= i < |vals| => RenderField(vals[i]))
  }

  function TextAll(vals: seq<Value>): (r: seq<string>)
    ensures |r| == |vals|
    ensures forall i :: 0 <= i < |vals| ==> r[i] == Text(vals[i])
  {
    seq(|vals|, i requires 0 <= i < |vals| => Text(vals[i]))
  }

  /** `row.join(',') + '\n'`: one CSV record. */
  function EncodeValues(vals: seq<Value>): string
  {
    Strings.JoinWith(RenderAll(vals), ',') + "\n"
  }

  predicate IsLetter(c: char) { 'a' <= c <= 'z' || 'A' <= c <= 'Z' }

  /** `s` holds letters only. */
  predicate IsWord(s: string)
  {
    forall j :: 0 <= j < |s| ==> IsLetter(s[j])
  }

  /** A word is written as it is, and reads back as itself. */
  lemma WordField(s: string)
    requires IsWord(s)
    ensures !NeedsQuoting(s)
    ensures RenderField(Str(s)) == s && Text(Str(s)) == s
  {
  }

  /** Escaping keeps every character other than the double quote, as
      many times as it occurs. */
  lemma {:induction false} EscapeKeeps(s: string, c: char)
    requires c != '"'
    ensures multiset(Escape(s))[c] == multiset(s)[c]
    decreases |s|
  {
    if s != [] {
      EscapeKeeps(s[1..], c);
      assert s == [s[0]] + s[1..];
      if s[0] == '"' {
        assert Escape(s) == "\"\"" + Escape(s[1..]);
      } else {
        assert Escape(s) == [s[0]] + Escape(s[1..]);
      }
    }
  }

  /** Quoting neither adds nor drops a line feed: the field holds exactly
      as many as the text. */
  lemma QuoteKeepsLineFeeds(s: string)
    ensures multiset(QuoteIfNeeded(s))['\n'] == multiset(s)['\n']
    ensures '\n' in QuoteIfNeeded(s) <==> '\n' in s
  {
    EscapeKeeps(s, '\n');
    if NeedsQuoting(s) {
      assert QuoteIfNeeded(s) == "\"" + Escape(s) + "\"";
    }
  }
}
