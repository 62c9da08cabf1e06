/**
 The text of the GDX file list: the header line `"/ "`, the tokens of every
 day of the range joined by CR LF, and the footer `" \n/"`. `ParseContent`
 and `DecodeContent` read such a text back into tokens and days; the
 round-trip lemmas tie the writer to them.
 */
module FileList {
  import opened Options
  import opened Calendar
  import opened Decimal
  import opened FileToken
  import opened DateRange

  const Header: string := "/ \n"
  const Footer: string := " \n/"
  const Crlf: string := "\r\n"

  /** The dates the script is run with (a start and an end at midnight). */
  const SourceStart: Date := Date(2013, 1, 1)
  const SourceEnd: Date := Date(2013, 10, 31)

  /** The items with the separator between each two of them, none after the last. */
  function Join(ts: seq<string>, sep: string): (r: string)
  {
    if |ts| == 0 then []
    else if |ts| == 1 then ts[0]
    else ts[0] + sep + Join(ts[1..], sep)
  }

  /** The items, each one followed by the separator. */
  function Terminate(ts: seq<string>, sep: string): string {
    if |ts| == 0 then [] else ts[0] + sep + Terminate(ts[1..], sep)
  }

  /** The token of each day, in the days' order. */
  function Tokens(ds: seq<Date>): seq<string> {
    seq(|ds|, i requires 0 <= i < |ds| => Token(ds[i]))
  }

  /** The file text for the days from `s` to `e` inclusive. */
  function Content(s: Date, e: Date): (r: string)
    requires Valid(s) && Valid(e)
    ensures 6 <= |r| && r[..3] == Header && r[|r| - 3..] == Footer
    ensures |r| == 6 <==> Before(e, s)
  {
    var ts := Tokens(Range(s, e));
    RangeEmpty(s, e);
    TokensOfRange(s, e);
    JoinEmpty(ts);
    Framing(Join(ts, Crlf));
    Header + Join(ts, Crlf) + Footer
  }

  /** The file text under the reading where a separator also follows the last token. */
  function TerminatedContent(s: Date, e: Date): string
    requires Valid(s) && Valid(e)
  {
    Header + Terminate(Tokens(Range(s, e)), Crlf) + Footer
  }

  /** The function as the script has it: the range always comes from the two script dates. */
  function AsWritten(start: Date, end: Date): (r: string)
    ensures DecodeContent(r) == Some(Range(SourceStart, SourceEnd))
  {
    ContentRoundTrip(SourceStart, SourceEnd);
    Content(SourceStart, SourceEnd)
  }

  /** No carriage return and no line feed. */
  predicate OneLine(t: string) {
    forall i :: 0 <= i < |t| ==> t[i] != '\r' && t[i] != '\n'
  }

  /** Line breaks are only ever CR LF pairs: no bare LF, no bare CR. */
  predicate CrlfOnly(b: string) {
    && (forall i :: 0 <= i < |b| && b[i] == '\n' ==> 0 < i && b[i - 1] == '\r')
    && (forall i :: 0 <= i < |b| && b[i] == '\r' ==> i + 1 < |b| && b[i + 1] == '\n')
  }

  /** Cuts a text at every CR LF; a text without one is a single line. */
  function SplitLines(b: string): (r: seq<string>)
    ensures 1 <= |r|
  {
    if |b| == 0 then [[]]
    else if |b| >= 2 && b[0] == '\r' && b[1] == '\n' then [[]] + SplitLines(b[2..])
    else
      var rest := SplitLines(b[1..]);
      [[b[0]] + rest[0]] + rest[1..]
  }

  /** The token lines of a file-list text, or None when header or footer is missing. */
  function ParseContent(c: string): Option<seq<string>> {
    if |c| < 6 || c[..3] != Header || c[|c| - 3..] != Footer then None
    else if |c| == 6 then Some([])
    else Some(SplitLines(c[3..|c| - 3]))
  }

  /** Decodes every token, failing if any one of them does not decode. */
  function DecodeAll(ts: seq<string>): (r: Option<seq<Date>>)
    ensures r.Some? ==> |r.value| == |ts|
  {
    if |ts| == 0 then Some([])
    else
      match Decode(ts[0])
      case None => None
      case Some(d) =>
        match DecodeAll(ts[1..])
        case None => None
        case Some(ds) => Some([d] + ds)
  }

  /** The days a file-list text names, in the order it names them. */
  function DecodeContent(c: string): Option<seq<Date>> {
    match ParseContent(c)
    case None => None
    case Some(ts) => DecodeAll(ts)
  }

  // ---------------------------------------------------------------------------
  // Lemmas

  /** A token consists of `FP_` and digits, so it never holds a line break. */
  lemma TokenOneLine(d: Date)
    requires Valid(d)
    ensures OneLine(Token(d))
  {
    TokenLayout(d);
    var t := Token(d);
    forall i | 0 <= i < |t|
      ensures t[i] != '\r' && t[i] != '\n'
    {
      if i < 3 {
        assert t[i] == Prefix[i];
      }
    }
  }

  lemma TokensOneLine(ds: seq<Date>)
    requires forall i :: 0 <= i < |ds| ==> Valid(ds[i])
    ensures forall i :: 0 <= i < |Tokens(ds)| ==> OneLine(Tokens(ds)[i])
  {
    forall i | 0 <= i < |ds|
      ensures OneLine(Tokens(ds)[i])
    {
      TokenOneLine(ds[i]);
    }
  }

  /** A single line splits into itself. */
  lemma {:induction false} SplitOneLine(t: string)
    requires OneLine(t)
    ensures SplitLines(t) == [t]
  {
    if |t| > 0 {
      SplitOneLine(t[1..]);
      assert [t[0]] + t[1..] == t;
    }
  }

  /** A line followed by CR LF splits off as the first line. */
  lemma {:induction false} SplitAfterLine(t: string, rest: string)
    requires OneLine(t)
    ensures SplitLines(t + Crlf + rest) == [t] + SplitLines(rest)
  {
    var b := t + Crlf + rest;
    if |t| == 0 {
      assert b[2..] == rest;
    } else {
      SplitAfterLine(t[1..], rest);
      assert b[1..] == t[1..] + Crlf + rest;
      assert [t[0]] + t[1..] == t;
    }
  }

  /** Splitting at CR LF undoes joining with CR LF when no item holds a line break. */
  lemma {:induction false} SplitJoin(ts: seq<string>)
    requires 1 <= |ts|
    requires forall i :: 0 <= i < |ts| ==> OneLine(ts[i])
    ensures SplitLines(Join(ts, Crlf)) == ts
  {
    if |ts| == 1 {
      SplitOneLine(ts[0]);
    } else {
      SplitJoin(ts[1..]);
      SplitAfterLine(ts[0], Join(ts[1..], Crlf));
      assert [ts[0]] + ts[1..] == ts;
    }
  }

  /** Joining one-line items with CR LF leaves no bare LF and no bare CR. */
  lemma {:induction false} JoinCrlfOnly(ts: seq<string>)
    requires forall i :: 0 <= i < |ts| ==> OneLine(ts[i])
    ensures CrlfOnly(Join(ts, Crlf))
  {
    if |ts| == 1 {
      assert OneLine(ts[0]);
    } else if |ts| > 1 {
      JoinCrlfOnly(ts[1..]);
      var h, t := ts[0], Join(ts[1..], Crlf);
      var b := h + Crlf + t;
      assert Join(ts, Crlf) == b;
      assert |Crlf| == 2 && Crlf[0] == '\r' && Crlf[1] == '\n';
      forall i | 0 <= i < |b|
        ensures b[i] == '\n' ==> 0 < i && b[i - 1] == '\r'
        ensures b[i] == '\r' ==> i + 1 < |b| && b[i + 1] == '\n'
      {
        assert OneLine(h) && CrlfOnly(t);
        if i < |h| {
          assert b[i] == h[i];
          if i + 1 == |h| {
            assert b[i + 1] == '\r';
          }
        } else if i < |h| + 2 {
          assert b[|h|] == '\r' && b[|h| + 1] == '\n';
        } else {
          var k := i - |h| - 2;
          assert b[i] == t[k];
          assert t[k] == '\r' ==> k + 1 < |t| && t[k + 1] == '\n';
          assert t[k] == '\n' ==> 0 < k && t[k - 1] == '\r';
          if k > 0 {
            assert b[i - 1] == t[k - 1];
          }
          if k + 1 < |t| {
            assert b[i + 1] == t[k + 1];
          }
        }
      }
    }
  }

  /** Joining is empty only for no items. */
  lemma JoinEmpty(ts: seq<string>)
    requires forall i :: 0 <= i < |ts| ==> 1 <= |ts[i]|
    ensures Join(ts, Crlf) == [] <==> |ts| == 0
  {
    if |ts| > 1 {
      assert |Join(ts, Crlf)| >= |ts[0]|;
    }
  }

  /** The joined text ends with the last item itself: no separator follows it. */
  lemma {:induction false} JoinEndsWithLastItem(ts: seq<string>, sep: string)
    requires 1 <= |ts|
    ensures var r, last := Join(ts, sep), ts[|ts| - 1];
      |last| <= |r| && r[|r| - |last|..] == last
  {
    if |ts| > 1 {
      JoinEndsWithLastItem(ts[1..], sep);
      var t := Join(ts[1..], sep);
      assert Join(ts, sep) == (ts[0] + sep) + t;
    }
  }

  /** With a separator after every item the text is the join plus one more separator. */
  lemma {:induction false} TerminateIsJoinPlusSeparator(ts: seq<string>)
    requires 1 <= |ts|
    ensures Terminate(ts, Crlf) == Join(ts, Crlf) + Crlf
  {
    if |ts| > 1 {
      TerminateIsJoinPlusSeparator(ts[1..]);
    } else {
      assert ts[1..] == [];
    }
  }

  /** Decoding a list is decoding its head and then its tail. */
  lemma DecodeAllCons(ts: seq<string>, d: Date, ds: seq<Date>)
    requires 1 <= |ts| && Decode(ts[0]) == Some(d) && DecodeAll(ts[1..]) == Some(ds)
    ensures DecodeAll(ts) == Some([d] + ds)
  {
  }

  /** The token list of a non-empty list is the first day's token followed by the rest's tokens. */
  lemma TokensCons(ds: seq<Date>)
    requires 1 <= |ds|
    ensures Tokens(ds)[0] == Token(ds[0])
    ensures Tokens(ds)[1..] == Tokens(ds[1..])
  {
  }

  /** Every token decodes, so decoding the tokens of valid days gives the days back. */
  lemma {:induction false} DecodeAllTokens(ds: seq<Date>)
    requires forall i :: 0 <= i < |ds| ==> Valid(ds[i])
    ensures DecodeAll(Tokens(ds)) == Some(ds)
  {
    if |ds| > 0 {
      var ts := Tokens(ds);
      DecodeAllTokens(ds[1..]);
      TokensCons(ds);
      DecodeToken(ds[0]);
      DecodeAllCons(ts, ds[0], ds[1..]);
      assert [ds[0]] + ds[1..] == ds;
    }
  }

  /** Header, body and footer can be sliced back out of a file-list text. */
  lemma Framing(body: string)
    ensures var c := Header + body + Footer;
      && |c| == |body| + 6
      && c[..3] == Header
      && c[|c| - 3..] == Footer
      && c[3..|c| - 3] == body
  {
  }

  /** The token list has one entry per day of the range and is one line per entry. */
  lemma TokensOfRange(s: Date, e: Date)
    requires Valid(s) && Valid(e)
    ensures |Tokens(Range(s, e))| == if Ordinal(s) <= Ordinal(e) then Ordinal(e) - Ordinal(s) + 1 else 0
    ensures forall i :: 0 <= i < |Tokens(Range(s, e))| ==> OneLine(Tokens(Range(s, e))[i])
    ensures forall i :: 0 <= i < |Tokens(Range(s, e))| ==> 1 <= |Tokens(Range(s, e))[i]|
  {
    var ds := Range(s, e);
    TokensOneLine(ds);
    forall i | 0 <= i < |ds|
      ensures 1 <= |Tokens(ds)[i]|
    {
      TokenLayout(ds[i]);
    }
  }

  /**
   Whatever the range, the text starts with the header and ends with the
   footer, and between them the only line breaks are CR LF.
   */
  lemma ContentShape(s: Date, e: Date)
    requires Valid(s) && Valid(e)
    ensures var c := Content(s, e);
      && 6 <= |c|
      && c[..3] == Header
      && c[|c| - 3..] == Footer
      && CrlfOnly(c[3..|c| - 3])
  {
    var ts := Tokens(Range(s, e));
    TokensOfRange(s, e);
    Framing(Join(ts, Crlf));
    JoinCrlfOnly(ts);
  }

  /** The lines between header and footer are exactly the tokens of the range, in order. */
  lemma ParseContentTokens(s: Date, e: Date)
    requires Valid(s) && Valid(e)
    ensures ParseContent(Content(s, e)) == Some(Tokens(Range(s, e)))
  {
    var ts := Tokens(Range(s, e));
    TokensOfRange(s, e);
    Framing(Join(ts, Crlf));
    JoinEmpty(ts);
    if |ts| > 0 {
      SplitJoin(ts);
    }
  }

  /** Reading the text back gives exactly the days of the range, in ascending order. */
  lemma ContentRoundTrip(s: Date, e: Date)
    requires Valid(s) && Valid(e)
    ensures DecodeContent(Content(s, e)) == Some(Range(s, e))
  {
    ParseContentTokens(s, e);
    DecodeAllTokens(Range(s, e));
  }

  /** When the start is after the end the text is only header and footer. */
  lemma ContentEmptyRange(s: Date, e: Date)
    requires Valid(s) && Valid(e) && Before(e, s)
    ensures Content(s, e) == "/ \n \n/"
  {
    RangeEmpty(s, e);
  }

  /** With at least one token the terminated reading has one more CR LF before the footer. */
  lemma TerminatedNonEmpty(s: Date, e: Date)
    requires Valid(s) && Valid(e) && NotAfter(s, e)
    ensures TerminatedContent(s, e) == Header + Join(Tokens(Range(s, e)), Crlf) + Crlf + Footer
  {
    var ts := Tokens(Range(s, e));
    RangeEmpty(s, e);
    assert 1 <= |ts|;
    TerminateIsJoinPlusSeparator(ts);
  }

  /** With no token the two readings are the same text. */
  lemma TerminatedEmpty(s: Date, e: Date)
    requires Valid(s) && Valid(e) && Before(e, s)
    ensures TerminatedContent(s, e) == Content(s, e)
  {
    RangeEmpty(s, e);
    assert Tokens(Range(s, e)) == [];
  }

  /**
   The two readings of the separator differ by exactly one CR LF before the
   footer when there is at least one token, and agree on an empty range.
   */
  lemma TerminatedVersusJoined(s: Date, e: Date)
    requires Valid(s) && Valid(e)
    ensures NotAfter(s, e) ==>
      TerminatedContent(s, e) == Header + Join(Tokens(Range(s, e)), Crlf) + Crlf + Footer
    ensures Before(e, s) ==> TerminatedContent(s, e) == Content(s, e)
  {
    if NotAfter(s, e) {
      TerminatedNonEmpty(s, e);
    } else if Before(e, s) {
      TerminatedEmpty(s, e);
    }
  }

  /** The fields of the example dates, as `str` and `zfill(2)` write them. */
  lemma ExampleFields()
    ensures Show(2013) == "2013"
    ensures Pad2(1) == "01" && Pad2(2) == "02" && Pad2(3) == "03"
    ensures Pad2(10) == "10" && Pad2(31) == "31"
  {
    assert Show(2) == "2";
    assert Show(20) == "20";
    assert Show(201) == "201";
    assert Show(1) == "1" && Show(2) == "2" && Show(3) == "3";
    assert Show(10) == "10" && Show(31) == "31";
  }

  /** Tokens of the example dates. */
  lemma ExampleTokens()
    ensures Token(Date(2013, 1, 1)) == "FP_20130101"
    ensures Token(Date(2013, 1, 2)) == "FP_20130102"
    ensures Token(Date(2013, 1, 3)) == "FP_20130103"
    ensures Token(Date(2013, 10, 31)) == "FP_20131031"
  {
    ExampleFields();
  }

  /** The script's own dates cover the 304 days from 1 January to 31 October 2013. */
  lemma SourceRange()
    ensures |Range(SourceStart, SourceEnd)| == 304
    ensures Tokens(Range(SourceStart, SourceEnd))[0] == "FP_20130101"
    ensures Tokens(Range(SourceStart, SourceEnd))[303] == "FP_20131031"
  {
    var y := 2013;
    assert !IsLeapYear(y);
    assert DaysBeforeMonth(y, 10) == 273 by {
      assert DaysBeforeMonth(y, 4) == 90;
      assert DaysBeforeMonth(y, 7) == 181;
    }
    assert Ordinal(SourceEnd) - Ordinal(SourceStart) == 303;
    RangeEndpoints(SourceStart, SourceEnd);
    ExampleTokens();
  }

  /**
   The script ignores its `start` and `end` parameters: asked for the single
   day 2014-01-01 it still writes the 304 days of 2013.
   */
  lemma AsWrittenIgnoresArguments()
    ensures var d := Date(2014, 1, 1);
      AsWritten(d, d) != Content(d, d)
  {
    var d := Date(2014, 1, 1);
    SourceRange();
    ParseContentTokens(SourceStart, SourceEnd);
    ParseContentTokens(d, d);
    assert |Range(d, d)| == 1;
  }

  /** The first three days of 2013, enumerated. */
  lemma ThreeDayRange()
    ensures Range(Date(2013, 1, 1), Date(2013, 1, 3)) == [Date(2013, 1, 1), Date(2013, 1, 2), Date(2013, 1, 3)]
  {
    var d1, d3 := Date(2013, 1, 1), Date(2013, 1, 3);
    assert Ordinal(d3) == Ordinal(d1) + 2;
    RangeEndpoints(d1, d3);
    RangeConsecutive(d1, d3, 0);
  }

  /** The tokens of the first three days of 2013. */
  lemma ThreeDayTokens()
    ensures Tokens(Range(Date(2013, 1, 1), Date(2013, 1, 3))) == ["FP_20130101", "FP_20130102", "FP_20130103"]
  {
    ThreeDayRange();
    ExampleTokens();
  }

  /** The three example tokens joined by CR LF. */
  lemma ThreeDayJoin()
    ensures Join(["FP_20130101", "FP_20130102", "FP_20130103"], Crlf)
         == "FP_20130101" + "\r\n" + "FP_20130102" + "\r\n" + "FP_20130103"
  {
    var ts: seq<string> := ["FP_20130101", "FP_20130102", "FP_20130103"];
    assert ts[1..] == ["FP_20130102", "FP_20130103"];
    assert ts[1..][1..] == ["FP_20130103"];
  }

  /** Three days in January 2013, tokens joined by CR LF, no separator after the last. */
  lemma ThreeDays()
    ensures Content(Date(2013, 1, 1), Date(2013, 1, 3))
         == "/ \n" + "FP_20130101" + "\r\n" + "FP_20130102" + "\r\n" + "FP_20130103" + " \n/"
  {
    var s, e := Date(2013, 1, 1), Date(2013, 1, 3);
    ThreeDayTokens();
    ThreeDayJoin();
    assert Join(Tokens(Range(s, e)), Crlf)
        == "FP_20130101" + "\r\n" + "FP_20130102" + "\r\n" + "FP_20130103";
  }

  /** A range of one day holds that day. */
  lemma OneDayRange(d: Date)
    requires Valid(d)
    ensures Range(d, d) == [d]
  {
    RangeEndpoints(d, d);
  }

  /** A one-day range writes the single token and no separator. */
  lemma OneDay()
    ensures Content(Date(2013, 10, 31), Date(2013, 10, 31)) == "/ \nFP_20131031 \n/"
  {
    OneDayTokens();
    assert Join(["FP_20131031"], Crlf) == "FP_20131031";
  }

  /** The token list of the single day 2013-10-31. */
  lemma OneDayTokens()
    ensures Tokens(Range(Date(2013, 10, 31), Date(2013, 10, 31))) == ["FP_20131031"]
  {
    OneDayRange(Date(2013, 10, 31));
    ExampleTokens();
  }

  /** An inverted range writes only the two marker lines. */
  lemma InvertedRange()
    ensures Content(Date(2013, 5, 5), Date(2013, 5, 1)) == "/ \n \n/"
  {
    ContentEmptyRange(Date(2013, 5, 5), Date(2013, 5, 1));
  }
}
