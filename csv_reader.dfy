/** A reader for one CSV record, a looser reading of the grammar of section 2
    of RFC 4180 (fields separated by commas; a field is either a run of
    characters other than comma and double quote, or is enclosed in double
    quotes with every inner double quote written twice). Unlike TEXTDATA
    there, a bare field here may hold any other character, line breaks and
    non-ASCII letters included. It serves as the independent reference
    against which the faculty page's CSV export is checked. */
module Csv {
  import opened Wrappers

  const Quote: char := '"'
  const Comma: char := ','

  /** The rest of an enclosed field read after its opening quote: the field's
      value and the text after its closing quote. */
  function QuotedBody(s: string): (r: Option<(string, string)>)
    ensures r.Some? ==> |r.value.1| < |s|
    decreases |s|
  {
    if s == [] then None
    else if s[0] == Quote then
      if |s| > 1 && s[1] == Quote then
        match QuotedBody(s[2..])
        case None => None
        case Some((v, rest)) => Some(([Quote] + v, rest))
      else Some(("", s[1..]))
    else
      match QuotedBody(s[1..])
      case None => None
      case Some((v, rest)) => Some(([s[0]] + v, rest))
  }

  /** The length of the leading run of characters other than a comma. */
  function FieldEnd(s: string): (n: nat)
    ensures n <= |s|
    ensures n < |s| ==> s[n] == Comma
    ensures Comma !in s[..n]
  {
    if s == [] || s[0] == Comma then 0
    else
      var n := 1 + FieldEnd(s[1..]);
      assert s[..n] == [s[0]] + s[1..][..n - 1];
      n
  }

  /** The fields of one record, or `None` when the text is not a record. */
  function ParseRecord(s: string): Option<seq<string>>
    decreases |s|
  {
    if s != [] && s[0] == Quote then
      match QuotedBody(s[1..])
      case None => None
      case Some((v, rest)) =>
        if rest == [] then Some([v])
        else if rest[0] != Comma then None
        else
          match ParseRecord(rest[1..])
          case None => None
          case Some(fs) => Some([v] + fs)
    else
      var n := FieldEnd(s);
      if Quote in s[..n] then None
      else if n == |s| then Some([s])
      else
        match ParseRecord(s[n + 1..])
        case None => None
        case Some(fs) => Some([s[..n]] + fs)
  }

  /** An enclosed field without inner quotes ends at its first quote. */
  lemma {:induction false} QuotedBodyCloses(x: string, t: string)
    requires Quote !in x
    requires t == [] || t[0] != Quote
    ensures QuotedBody(x + [Quote] + t) == Some((x, t))
    decreases |x|
  {
    var s := x + [Quote] + t;
    if x == [] {
      assert s == [Quote] + t && s[1..] == t;
    } else {
      assert s[0] == x[0] && s[1..] == x[1..] + [Quote] + t;
      QuotedBodyCloses(x[1..], t);
      assert [x[0]] + x[1..] == x;
    }
  }
}
