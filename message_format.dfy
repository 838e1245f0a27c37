/**
 * The canned reply of getMails (index.js:170-183) and a reference reading
 * of it as an Internet message (RFC 5322 section 2.1): header lines
 * `name: value` ended by CRLF, one empty line, then the body. The body is
 * declared "Content-Transfer-Encoding: 7bit", so it must be 7bit data in
 * the sense of section 2.7 of RFC 2045.
 */
module MessageFormat {
  import opened Wrappers
  import opened MailTypes
  import opened Headers

  const CRLF := "\r\n"
  const ContentType := "text/plain; charset=\"UTF-8\""
  const TransferEncoding := "7bit"
  /** The fixed body line, without its CRLF (one literal in the source, written here word by word so that VacationBodyPrintable can check it piece by piece). */
  const VacationBody := "Thank you " + "for your " + "email. " + "I'm " + "currently " + "on " +
    "vacation " + "and " + "will " + "reply " + "to you " + "when I " + "return."

  /** The text getMails hands to `Buffer.from` for one reply. */
  function ReplyText(from: string, subject: string): string {
    ("To: " + from + "\r\n") +
    ("Subject: Re: " + subject + "\r\n") +
    "Content-Type: text/plain; charset=\"UTF-8\"\r\n" +
    "Content-Transfer-Encoding: 7bit\r\n\r\n" +
    (VacationBody + "\r\n")
  }

  /** The header fields the reply is meant to carry, in order. */
  function ReplyFields(from: string, subject: string): seq<Header> {
    [Header("To", from), Header("Subject", "Re: " + subject),
     Header("Content-Type", ContentType), Header("Content-Transfer-Encoding", TransferEncoding)]
  }

  // ---- Rendering and parsing -------------------------------------------

  /** A field name: one or more printable US-ASCII characters other than ':' (RFC 5322 section 3.6.8). */
  predicate FieldName(s: string) {
    |s| > 0 && forall i :: 0 <= i < |s| ==> 33 <= s[i] as int <= 126 && s[i] != ':'
  }

  /** An unfolded field body: no CR and no LF. */
  predicate FieldValue(s: string) {
    forall i :: 0 <= i < |s| ==> s[i] != '\r' && s[i] != '\n'
  }

  predicate WellFormedFields(fields: seq<Header>) {
    forall k :: 0 <= k < |fields| ==> FieldName(fields[k].name) && FieldValue(fields[k].value)
  }

  function RenderField(h: Header): string {
    h.name + ": " + h.value + CRLF
  }

  function RenderFields(fields: seq<Header>): string {
    if fields == [] then "" else RenderField(fields[0]) + RenderFields(fields[1..])
  }

  /** A message: its header section, the empty line, its body. */
  function Render(fields: seq<Header>, body: string): string {
    RenderFields(fields) + CRLF + body
  }

  /** The index of the first `c` in `s`, or |s| when there is none. */
  function IndexOf(s: string, c: char): (k: nat)
    ensures k <= |s|
    ensures k < |s| ==> s[k] == c
    ensures forall j :: 0 <= j < k ==> s[j] != c
  {
    if s == [] then 0
    else if s[0] == c then 0
    else 1 + IndexOf(s[1..], c)
  }

  /** Reads one header line (without its CRLF) as `name: value`. */
  function ParseField(line: string): Option<Header> {
    var j := IndexOf(line, ':');
    if j + 1 < |line| && line[j + 1] == ' ' && FieldName(line[..j]) then
      Some(Header(line[..j], line[j + 2..]))
    else None
  }

  /** Reads a message into its header fields and its body; None when it is not of the form Render builds. */
  function Parse(text: string): Option<(seq<Header>, string)>
    decreases |text|
  {
    if |text| >= 2 && text[0] == '\r' && text[1] == '\n' then Some(([], text[2..]))
    else
      var k := IndexOf(text, '\r');
      if k + 1 < |text| && text[k + 1] == '\n' then
        match ParseField(text[..k])
        case None => None
        case Some(h) =>
          match Parse(text[k + 2..])
          case None => None
          case Some(rest) => Some(([h] + rest.0, rest.1))
      else None
  }

  // ---- Lemmas -------------------------------------------------------------

  /** The first `c` of `a + [c] + b` is at |a| when `a` holds no `c`. */
  lemma IndexOfSplit(a: string, c: char, b: string)
    requires forall i :: 0 <= i < |a| ==> a[i] != c
    ensures IndexOf(a + [c] + b, c) == |a|
  {
    var s := a + [c] + b;
    assert s[|a|] == c;
    assert forall j :: 0 <= j < |a| ==> s[j] == a[j];
  }

  /** One rendered field line parses back to the field. */
  lemma ParseFieldLine(h: Header)
    requires FieldName(h.name) && FieldValue(h.value)
    ensures ParseField(h.name + ": " + h.value) == Some(h)
  {
    var line := h.name + ": " + h.value;
    assert line == h.name + [':'] + (" " + h.value);
    IndexOfSplit(h.name, ':', " " + h.value);
    assert line[..|h.name|] == h.name;
    assert line[|h.name| + 1] == ' ';
    assert line[|h.name| + 2..] == h.value;
  }

  /** A non-empty line without CR, then CRLF: Parse reads the line as a field and goes on after the CRLF. */
  lemma ParseLine(line: string, rest: string)
    requires |line| > 0 && forall i :: 0 <= i < |line| ==> line[i] != '\r'
    ensures Parse(line + CRLF + rest) ==
      match ParseField(line)
      case None => None
      case Some(h) =>
        match Parse(rest)
        case None => None
        case Some(p) => Some(([h] + p.0, p.1))
  {
    var text := line + CRLF + rest;
    assert text == line + ['\r'] + (['\n'] + rest);
    IndexOfSplit(line, '\r', ['\n'] + rest);
    assert text[0] == line[0];
    assert text[|line| + 1] == '\n';
    assert text[..|line|] == line;
    assert text[|line| + 2..] == rest;
  }

  /** A rendered field line holds no CR and is not empty. */
  lemma FieldLineNoCR(h: Header)
    requires FieldName(h.name) && FieldValue(h.value)
    ensures var line := h.name + ": " + h.value;
      |line| > 0 && forall i :: 0 <= i < |line| ==> line[i] != '\r'
  {
    var line := h.name + ": " + h.value;
    forall i | 0 <= i < |line| ensures line[i] != '\r' {
      if i < |h.name| { assert line[i] == h.name[i]; }
      else if i >= |h.name| + 2 { assert line[i] == h.value[i - |h.name| - 2]; }
    }
  }

  /** Parsing undoes rendering: the fields and the body come back unchanged. */
  lemma {:induction false} ParseRender(fields: seq<Header>, body: string)
    requires WellFormedFields(fields)
    ensures Parse(Render(fields, body)) == Some((fields, body))
  {
    if fields == [] {
      assert Render(fields, body) == "\r\n" + body;
    } else {
      var h := fields[0];
      var line := h.name + ": " + h.value;
      assert Render(fields, body) == line + CRLF + Render(fields[1..], body);
      FieldLineNoCR(h);
      ParseLine(line, Render(fields[1..], body));
      ParseFieldLine(h);
      assert WellFormedFields(fields[1..]) by {
        forall j | 0 <= j < |fields[1..]|
          ensures FieldName(fields[1..][j].name) && FieldValue(fields[1..][j].value)
        {
          assert fields[1..][j] == fields[j + 1];
        }
      }
      ParseRender(fields[1..], body);
      assert [h] + fields[1..] == fields;
    }
  }

  /** Rendering a list of fields is rendering its first field, then the rest. */
  lemma RenderFieldsFour(a: Header, b: Header, c: Header, d: Header)
    ensures RenderFields([a, b, c, d]) == RenderField(a) + RenderField(b) + RenderField(c) + RenderField(d)
  {
    assert [a, b, c, d][1..] == [b, c, d] && [b, c, d][1..] == [c, d] && [c, d][1..] == [d] && [d][1..] == [];
    assert RenderFields([d]) == RenderField(d);
    assert RenderFields([c, d]) == RenderField(c) + RenderField(d);
    assert RenderFields([b, c, d]) == RenderField(b) + RenderField(c) + RenderField(d);
  }

  /** The source's fixed Content-Type line is the rendered Content-Type field. */
  lemma ContentTypeLine()
    ensures "Content-Type: text/plain; charset=\"UTF-8\"\r\n" == RenderField(Header("Content-Type", ContentType))
  {
    assert "Content-Type: " == "Content-Type" + ": ";
    assert "text/plain; charset=\"UTF-8\"\r\n" == ContentType + CRLF;
    assert "Content-Type: text/plain; charset=\"UTF-8\"\r\n" == "Content-Type: " + "text/plain; charset=\"UTF-8\"\r\n";
  }

  /** The source's fixed Content-Transfer-Encoding line is the rendered field followed by the empty line. */
  lemma TransferEncodingLines()
    ensures "Content-Transfer-Encoding: 7bit\r\n\r\n" == RenderField(Header("Content-Transfer-Encoding", TransferEncoding)) + CRLF
  {
    assert "Content-Transfer-Encoding: " == "Content-Transfer-Encoding" + ": ";
    assert "7bit\r\n\r\n" == TransferEncoding + CRLF + CRLF;
    assert "Content-Transfer-Encoding: 7bit\r\n\r\n" == "Content-Transfer-Encoding: " + "7bit\r\n\r\n";
  }

  /** The reply text is the rendering of its four header fields over the vacation body line. */
  lemma ReplyTextRendered(from: string, subject: string)
    ensures ReplyText(from, subject) == Render(ReplyFields(from, subject), VacationBody + CRLF)
  {
    var h0, h1 := Header("To", from), Header("Subject", "Re: " + subject);
    var h2, h3 := Header("Content-Type", ContentType), Header("Content-Transfer-Encoding", TransferEncoding);
    RenderFieldsFour(h0, h1, h2, h3);
    assert "To: " + from + "\r\n" == RenderField(h0) by {
      assert "To: " == "To" + ": ";
    }
    assert "Subject: Re: " + subject + "\r\n" == RenderField(h1) by {
      assert "Subject: Re: " == "Subject" + ": " + "Re: ";
    }
    ContentTypeLine();
    TransferEncodingLines();
    var p0, p1, p2, p3 := RenderField(h0), RenderField(h1), RenderField(h2), RenderField(h3);
    var b := VacationBody + CRLF;
    assert ReplyText(from, subject) == p0 + p1 + p2 + (p3 + CRLF) + b;
    assert Render(ReplyFields(from, subject), b) == p0 + p1 + p2 + p3 + CRLF + b;
  }

  /** The four reply fields are well formed when the two copied values are. */
  lemma ReplyFieldsWellFormed(from: string, subject: string)
    requires FieldValue(from) && FieldValue(subject)
    ensures WellFormedFields(ReplyFields(from, subject))
  {
    assert FieldValue("Re: " + subject) by {
      forall i | 0 <= i < |"Re: " + subject| ensures ("Re: " + subject)[i] != '\r' && ("Re: " + subject)[i] != '\n' {
        if i >= 4 { assert ("Re: " + subject)[i] == subject[i - 4]; }
      }
    }
    assert FieldName("To") && FieldName("Subject");
    assert FieldName("Content-Type");
    assert FieldName("Content-Transfer-Encoding");
    assert FieldValue(ContentType) && FieldValue(TransferEncoding);
  }

  /**
   * Read back as a message, the reply is addressed `To:` the original
   * sender, has subject "Re: " plus the original subject, declares a 7bit
   * body, and its body is the vacation line.
   */
  lemma ReplyReadsBack(from: string, subject: string)
    requires FieldValue(from) && FieldValue(subject)
    ensures Parse(ReplyText(from, subject)) == Some((ReplyFields(from, subject), VacationBody + CRLF))
  {
    ReplyFieldsWellFormed(from, subject);
    ReplyTextRendered(from, subject);
    ParseRender(ReplyFields(from, subject), VacationBody + CRLF);
  }

  /** Among the reply's fields, `To` carries the sender, `Subject` the prefixed subject, and the body is declared 7bit. */
  lemma ReplyFieldValues(from: string, subject: string)
    ensures Lookup(ReplyFields(from, subject), "To") == Some(from)
    ensures Lookup(ReplyFields(from, subject), "Subject") == Some("Re: " + subject)
    ensures Lookup(ReplyFields(from, subject), "Content-Transfer-Encoding") == Some(TransferEncoding)
  {
    var fs := ReplyFields(from, subject);
    assert fs[0].name == "To" && fs[1].name == "Subject" && fs[3].name == "Content-Transfer-Encoding";
    assert "Subject" != "To" && "Content-Transfer-Encoding" != "To";
    assert "Content-Transfer-Encoding" != "Subject" && "Content-Transfer-Encoding" != "Content-Type";
  }

  // ---- 7bit data ----------------------------------------------------------

  /** Printable US-ASCII: space to tilde. */
  predicate Printable(s: string) {
    forall i :: 0 <= i < |s| ==> 32 <= s[i] as int <= 126
  }

  /**
   * 7bit data (RFC 2045 section 2.7): US-ASCII without NUL, CR and LF only
   * as a CRLF pair, and no line longer than 998 characters (from every
   * position the next CR is at most 998 characters away).
   */
  predicate SevenBitData(s: string) {
    && (forall i :: 0 <= i < |s| ==> 0 < s[i] as int < 128)
    && (forall i :: 0 <= i < |s| && s[i] == '\r' ==> i + 1 < |s| && s[i + 1] == '\n')
    && (forall i :: 0 <= i < |s| && s[i] == '\n' ==> 0 < i && s[i - 1] == '\r')
    && (forall i :: 0 <= i <= |s| ==> IndexOf(s[i..], '\r') <= 998)
  }

  lemma PrintableConcat(a: string, b: string)
    requires Printable(a) && Printable(b)
    ensures Printable(a + b)
  {
    forall i | 0 <= i < |a + b| ensures 32 <= (a + b)[i] as int <= 126 {
      if i >= |a| { assert (a + b)[i] == b[i - |a|]; }
    }
  }

  lemma VacationBodyPrintable()
    ensures Printable(VacationBody)
  {
    var w0, w1, w2, w3 := "Thank you ", "for your ", "email. ", "I'm ";
    var w4, w5, w6, w7 := "currently ", "on ", "vacation ", "and ";
    var w8, w9, w10, w11 := "will ", "reply ", "to you ", "when I ";
    var w12 := "return.";
    assert Printable(w0) && Printable(w1) && Printable(w2) && Printable(w3);
    assert Printable(w4) && Printable(w5) && Printable(w6) && Printable(w7);
    assert Printable(w8) && Printable(w9) && Printable(w10) && Printable(w11);
    assert Printable(w12);
    PrintableConcat(w0, w1);
    PrintableConcat(w0 + w1, w2);
    PrintableConcat(w0 + w1 + w2, w3);
    PrintableConcat(w0 + w1 + w2 + w3, w4);
    PrintableConcat(w0 + w1 + w2 + w3 + w4, w5);
    PrintableConcat(w0 + w1 + w2 + w3 + w4 + w5, w6);
    PrintableConcat(w0 + w1 + w2 + w3 + w4 + w5 + w6, w7);
    PrintableConcat(w0 + w1 + w2 + w3 + w4 + w5 + w6 + w7, w8);
    PrintableConcat(w0 + w1 + w2 + w3 + w4 + w5 + w6 + w7 + w8, w9);
    PrintableConcat(w0 + w1 + w2 + w3 + w4 + w5 + w6 + w7 + w8 + w9, w10);
    PrintableConcat(w0 + w1 + w2 + w3 + w4 + w5 + w6 + w7 + w8 + w9 + w10, w11);
    PrintableConcat(w0 + w1 + w2 + w3 + w4 + w5 + w6 + w7 + w8 + w9 + w10 + w11, w12);
  }

  /** The reply's body is 7bit data, as its Content-Transfer-Encoding header declares, and its sentence is printable. */
  lemma BodyIsSevenBit()
    ensures Printable(VacationBody)
    ensures SevenBitData(VacationBody + CRLF)
  {
    var s := VacationBody + CRLF;
    VacationBodyPrintable();
    var n := |VacationBody|;
    assert forall i :: 0 <= i < n ==> s[i] == VacationBody[i];
    assert s[n] == '\r' && s[n + 1] == '\n' && |s| == n + 2;
    forall i | 0 <= i <= |s| ensures IndexOf(s[i..], '\r') <= 998 {
      assert |s[i..]| <= |s| < 998;
    }
  }
}
