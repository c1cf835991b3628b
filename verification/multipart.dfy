/**
 * The multipart/form-data request body both upload actions write: one part
 * named `file`, laid out with the delimiter and close-delimiter of section
 * 5.1.1 of RFC 2046 and the `Content-Disposition: form-data` header of
 * section 4.2 of RFC 7578. The request stream is a `DataOutputStream`, whose
 * `writeBytes` walks the string's UTF-16 code units (the JVM's `char`s) and
 * keeps only the low eight bits of each.
 */
module Multipart {
  import opened Base
  import opened Text

  /** The UTF-16 code units of one code point: itself, or a surrogate pair above U+FFFF. */
  function Units(c: char): (r: seq<int>)
    ensures 1 <= |r| <= 2
    ensures |r| == 1 <==> c as int < 0x1_0000
    ensures forall i :: 0 <= i < |r| ==> 0 <= r[i] < 0x1_0000
  {
    if c as int < 0x1_0000 then [c as int]
    else [0xD800 + (c as int - 0x1_0000) / 1024, 0xDC00 + (c as int - 0x1_0000) % 1024]
  }

  /** The string as the JVM holds it: its sequence of UTF-16 code units. */
  function Utf16(s: string): (r: seq<int>)
    ensures |r| >= |s|
    ensures forall i :: 0 <= i < |r| ==> 0 <= r[i] < 0x1_0000
  {
    if s == [] then [] else Units(s[0]) + Utf16(s[1..])
  }

  lemma {:induction false} Utf16Append(a: string, b: string)
    ensures Utf16(a + b) == Utf16(a) + Utf16(b)
  {
    if a != [] {
      assert (a + b)[0] == a[0];
      assert (a + b)[1..] == a[1..] + b;
      Utf16Append(a[1..], b);
    } else {
      assert a + b == b;
    }
  }

  /** Text below U+10000 is one code unit per character, each its own code point. */
  lemma {:induction false} Utf16Basic(s: string)
    requires forall i :: 0 <= i < |s| ==> s[i] as int < 0x1_0000
    ensures |Utf16(s)| == |s|
    ensures forall i :: 0 <= i < |s| ==> Utf16(s)[i] == s[i] as int
  {
    if s != [] {
      Utf16Basic(s[1..]);
      forall i | 1 <= i < |s|
        ensures Utf16(s)[i] == s[i] as int
      {
        assert Utf16(s)[i] == Utf16(s[1..])[i - 1];
      }
    }
  }

  /**
   * Reads code units back as text: a high surrogate must be followed by a
   * low one, and a lone surrogate is refused.
   */
  function FromUtf16(u: seq<int>): Option<string>
  {
    if u == [] then Some([])
    else if 0 <= u[0] < 0xD800 || 0xE000 <= u[0] < 0x1_0000 then
      match FromUtf16(u[1..])
      case None => None
      case Some(t) => Some([u[0] as char] + t)
    else if 0xD800 <= u[0] < 0xDC00 && |u| >= 2 && 0xDC00 <= u[1] < 0xE000 then
      match FromUtf16(u[2..])
      case None => None
      case Some(t) => Some([(0x1_0000 + (u[0] - 0xD800) * 1024 + (u[1] - 0xDC00)) as char] + t)
    else None
  }

  /** No code point is lost on the way to UTF-16: decoding the units gives the text back. */
  lemma {:induction false} Utf16RoundTrip(s: string)
    ensures FromUtf16(Utf16(s)) == Some(s)
  {
    if s != [] {
      var u := Utf16(s);
      var us := Units(s[0]);
      assert u == us + Utf16(s[1..]);
      Utf16RoundTrip(s[1..]);
      if |us| == 1 {
        assert u[1..] == Utf16(s[1..]);
      } else {
        var v := s[0] as int - 0x1_0000;
        assert u[0] == 0xD800 + v / 1024 && u[1] == 0xDC00 + v % 1024;
        assert 0x1_0000 + (u[0] - 0xD800) * 1024 + (u[1] - 0xDC00) == s[0] as int;
        assert u[2..] == Utf16(s[1..]);
      }
      assert s == [s[0]] + s[1..];
    }
  }

  /** The low eight bits of each code unit. */
  function LowBytes(u: seq<int>): (r: seq<byte>)
    ensures |r| == |u|
    ensures forall i :: 0 <= i < |u| ==> r[i] == u[i] % 256
  {
    seq(|u|, i requires 0 <= i < |u| => u[i] % 256)
  }

  /**
   * The bytes `writeBytes(s)` puts on the stream: one per UTF-16 code unit,
   * its low eight bits. Below U+10000 that is one byte per character.
   */
  function Latin1(s: string): (r: seq<byte>)
    ensures |r| == |Utf16(s)|
    ensures forall i :: 0 <= i < |r| ==> r[i] == Utf16(s)[i] % 256
  {
    LowBytes(Utf16(s))
  }

  lemma LowBytesAppend(u: seq<int>, v: seq<int>)
    ensures LowBytes(u + v) == LowBytes(u) + LowBytes(v)
  {
    var l, r := LowBytes(u + v), LowBytes(u) + LowBytes(v);
    forall i | 0 <= i < |l|
      ensures l[i] == r[i]
    {
      if i < |u| {
        assert (u + v)[i] == u[i];
      } else {
        assert (u + v)[i] == v[i - |u|];
      }
    }
  }

  lemma Latin1Append(a: string, b: string)
    ensures Latin1(a + b) == Latin1(a) + Latin1(b)
  {
    Utf16Append(a, b);
    LowBytesAppend(Utf16(a), Utf16(b));
  }

  /** Text below U+10000 is written one byte per character, the character's low eight bits. */
  lemma Latin1Basic(s: string)
    requires forall i :: 0 <= i < |s| ==> s[i] as int < 0x1_0000
    ensures |Latin1(s)| == |s|
    ensures forall i :: 0 <= i < |s| ==> Latin1(s)[i] == s[i] as int % 256
  {
    Utf16Basic(s);
  }

  /** A character above U+FFFF is two code units, so two bytes: U+1F600 writes 0x3D and 0x00. */
  lemma SupplementaryTwoBytes()
    ensures Latin1("\U{1F600}") == [0x3D, 0x00]
  {
    assert Utf16("\U{1F600}") == Units('\U{1F600}') + Utf16([]);
  }

  /** The high surrogate of U+13400 is 0xD80D, whose low byte is a carriage return. */
  lemma SupplementaryCarriageReturn()
    ensures !SingleLine(Latin1("\U{13400}"))
  {
    assert Utf16("\U{13400}") == Units('\U{13400}') + Utf16([]);
    assert Latin1("\U{13400}")[0] == CR;
  }

  /** Carriage return and line feed, as bytes. */
  const CR: byte := 13
  const LF: byte := 10

  /** The text before the file name in the `Content-Disposition` line. */
  const DispositionPrefix := "Content-Disposition: " + "form-data; name=\"file\"; " + "filename=\""

  /** No CR or LF byte: text that cannot end a header line. */
  predicate SingleLine(bs: seq<byte>)
  {
    forall i :: 0 <= i < |bs| ==> bs[i] != CR && bs[i] != LF
  }

  /** The two header lines of the part, without the line break that ends the second. */
  function PartHeaders(filename: string, contentType: string): seq<byte>
  {
    Latin1(DispositionPrefix + filename + "\"\r\n"
      + "Content-Type: " + contentType)
  }

  /** The dash-boundary that opens the part, and the delimiter that ends it. */
  function OpenLine(boundary: string): seq<byte>
  {
    Latin1("--" + boundary + "\r\n")
  }

  function Delimiter(boundary: string): seq<byte>
  {
    Latin1("\r\n--" + boundary)
  }

  /** The close-delimiter line: the delimiter, `--`, and a line break. */
  function CloseDelimiter(boundary: string): seq<byte>
  {
    Latin1("\r\n--" + boundary + "--\r\n")
  }

  /**
   * The request body of one file part: the delimiter line, the
   * `Content-Disposition` and `Content-Type` headers, an empty line, the
   * payload unchanged, then the close-delimiter.
   */
  function FilePartBody(boundary: string, filename: string, contentType: string, payload: seq<byte>): seq<byte>
  {
    Latin1("--" + boundary + "\r\n")
    + Latin1(DispositionPrefix + filename + "\"\r\n")
    + Latin1("Content-Type: " + contentType + "\r\n\r\n")
    + payload
    + Latin1("\r\n--" + boundary + "--\r\n")
  }

  /** The stream a `DataOutputStream` writes to, seen as everything written so far. */
  class DataOutput {
    var written: seq<byte>

    constructor ()
      ensures written == []
    {
      written := [];
    }

    /** `writeBytes(s)`: one byte per UTF-16 code unit, its low eight bits. */
    method WriteBytes(s: string)
      modifies this
      ensures written == old(written) + Latin1(s)
    {
      var units := Utf16(s);
      var i := 0;
      while i < |units|
        invariant 0 <= i <= |units|
        invariant written == old(written) + LowBytes(units[..i])
      {
        assert LowBytes(units[..i + 1]) == LowBytes(units[..i]) + [units[i] % 256];
        written := written + [units[i] % 256];
        i := i + 1;
      }
      assert units[..i] == units;
    }

    /** `write(bytes)`: the bytes as they are. */
    method Write(bytes: seq<byte>)
      modifies this
      ensures written == old(written) + bytes
    {
      written := written + bytes;
    }
  }

  /** Writes one file part the way both actions do, piece by piece. */
  method WriteFilePart(out: DataOutput, boundary: string, filename: string, contentType: string, payload: seq<byte>)
    modifies out
    ensures out.written == old(out.written) + FilePartBody(boundary, filename, contentType, payload)
  {
    ghost var w := out.written;
    ghost var l1, l2 := Latin1("--" + boundary + "\r\n"), Latin1(DispositionPrefix + filename + "\"\r\n");
    ghost var l3, l5 := Latin1("Content-Type: " + contentType + "\r\n\r\n"), Latin1("\r\n--" + boundary + "--\r\n");
    out.WriteBytes("--" + boundary + "\r\n");
    out.WriteBytes(DispositionPrefix + filename + "\"\r\n");
    out.WriteBytes("Content-Type: " + contentType + "\r\n\r\n");
    out.Write(payload);
    out.WriteBytes("\r\n--" + boundary + "--\r\n");
    assert out.written == w + l1 + l2 + l3 + payload + l5;
    AppendAssoc(w, l1 + l2 + l3 + payload, l5);
    AppendAssoc(w, l1 + l2 + l3, payload);
    AppendAssoc(w, l1 + l2, l3);
    AppendAssoc(w, l1, l2);
  }

  lemma AppendAssoc(a: seq<byte>, b: seq<byte>, c: seq<byte>)
    ensures a + (b + c) == a + b + c
  {
  }

  lemma StringAssoc(a: string, b: string, c: string)
    ensures a + (b + c) == a + b + c
  {
  }

  /** The headers and payload a receiver finds in a one-part body. */
  datatype PartView = PartView(headers: seq<byte>, payload: seq<byte>)

  /**
   * How a receiver reads a one-part body: the opening delimiter line, the
   * headers up to the first empty line, then the payload up to the first
   * delimiter, which must be the close-delimiter ending the body.
   */
  function ParseFilePart(body: seq<byte>, boundary: string): Option<PartView>
  {
    var open := OpenLine(boundary);
    if !StartsWith(body, open) then None
    else
      var rest := body[|open|..];
      match IndexOf(rest, [CR, LF, CR, LF])
      case None => None
      case Some(h) =>
        var after := rest[h + 4..];
        match IndexOf(after, Delimiter(boundary))
        case None => None
        case Some(d) =>
          if after[d..] == CloseDelimiter(boundary) then Some(PartView(rest[..h], after[..d]))
          else None
  }

  /** The header block holds one line break, so no empty line ends it early. */
  lemma HeadersHaveNoBlankLine(a: seq<byte>, b: seq<byte>)
    requires SingleLine(a) && SingleLine(b) && |b| > 0
    ensures !Contains((a + [CR, LF] + b + [CR, LF, CR, LF])[..|a| + 2 + |b| + 3], [CR, LF, CR, LF])
  {
    var x := (a + [CR, LF] + b + [CR, LF, CR, LF])[..|a| + 2 + |b| + 3];
    assert x == a + [CR, LF] + b + [CR, LF, CR];
    forall i | 0 <= i < |x| && i != |a| + 1 && i != |a| + 2 + |b| + 1
      ensures x[i] != LF
    {
      if i < |a| {
        assert x[i] == a[i];
      } else if |a| + 2 <= i < |a| + 2 + |b| {
        assert x[i] == b[i - |a| - 2];
      }
    }
    forall k | 0 <= k <= |x| - 4
      ensures !OccursAt(x, [CR, LF, CR, LF], k)
    {
      assert x[k..k + 4][1] == x[k + 1];
      assert x[k..k + 4][3] == x[k + 3];
    }
    ContainsIff(x, [CR, LF, CR, LF]);
  }

  lemma SingleLineAppend(a: string, b: string)
    requires SingleLine(Latin1(a)) && SingleLine(Latin1(b))
    ensures SingleLine(Latin1(a + b))
  {
    Latin1Append(a, b);
  }


  /** Printable ASCII. */
  predicate Printable(s: string)
  {
    forall i :: 0 <= i < |s| ==> ' ' <= s[i] <= '~'
  }

  lemma PrintableSingleLine(s: string)
    requires Printable(s)
    ensures SingleLine(Latin1(s))
  {
    Latin1Basic(s);
  }

  lemma PrintableAppend(a: string, b: string)
    requires Printable(a) && Printable(b)
    ensures Printable(a + b)
  {
  }

  lemma DispositionPrefixPrintable()
    ensures Printable(DispositionPrefix)
  {
    assert Printable("Content-Disposition: ") by {}
    assert Printable("form-data; name=\"file\"; ") by {}
    assert Printable("filename=\"") by {}
    PrintableAppend("Content-Disposition: ", "form-data; name=\"file\"; ");
    PrintableAppend("Content-Disposition: " + "form-data; name=\"file\"; ", "filename=\"");
  }

  lemma DispositionPrefixSingleLine()
    ensures SingleLine(Latin1(DispositionPrefix))
  {
    DispositionPrefixPrintable();
    PrintableSingleLine(DispositionPrefix);
  }

  lemma ContentTypeLabelSingleLine()
    ensures SingleLine(Latin1("Content-Type: "))
  {
    assert Printable("Content-Type: ");
    PrintableSingleLine("Content-Type: ");
  }

  lemma QuoteSingleLine()
    ensures SingleLine(Latin1("\""))
  {
    assert Printable("\"");
    PrintableSingleLine("\"");
  }

  /** The literal parts of the two header lines hold no line break. */
  lemma HeaderLiteralsSingleLine()
    ensures SingleLine(Latin1(DispositionPrefix))
    ensures SingleLine(Latin1("Content-Type: "))
    ensures SingleLine(Latin1("\""))
  {
    DispositionPrefixSingleLine();
    ContentTypeLabelSingleLine();
    QuoteSingleLine();
  }

  lemma PartHeadersSplit(filename: string, contentType: string)
    ensures PartHeaders(filename, contentType)
      == Latin1(DispositionPrefix + filename + "\"") + [CR, LF] + Latin1("Content-Type: " + contentType)
  {
    var x := DispositionPrefix + filename + "\"";
    var t := "Content-Type: " + contentType;
    StringAssoc(DispositionPrefix + filename, "\"", "\r\n");
    assert "\"" + "\r\n" == "\"\r\n";
    StringAssoc(x + "\r\n", "Content-Type: ", contentType);
    Latin1Append(x + "\r\n", t);
    Latin1Append(x, "\r\n");
    assert Latin1("\r\n") == [CR, LF];
  }

  lemma PartHeadersShape(filename: string, contentType: string)
    requires SingleLine(Latin1(filename)) && SingleLine(Latin1(contentType))
    ensures var a := Latin1(DispositionPrefix + filename + "\"");
      var b := Latin1("Content-Type: " + contentType);
      && PartHeaders(filename, contentType) == a + [CR, LF] + b
      && SingleLine(a) && SingleLine(b) && |b| > 0
  {
    HeaderLiteralsSingleLine();
    SingleLineAppend(DispositionPrefix, filename);
    SingleLineAppend(DispositionPrefix + filename, "\"");
    SingleLineAppend("Content-Type: ", contentType);
    PartHeadersSplit(filename, contentType);
  }

  /** The delimiter's leading CR appears nowhere else in it when the boundary has no CR. */
  lemma DelimiterHeadUnique(boundary: string)
    requires SingleLine(Latin1(boundary))
    ensures var d := Delimiter(boundary); |d| > 0 && forall m :: 1 <= m < |d| ==> d[m] != d[0]
  {
    Latin1Append("\r\n--", boundary);
  }

  /** The body is the opening line followed by headers, an empty line, the payload and the close-delimiter. */
  lemma FilePartBodyLayout(boundary: string, filename: string, contentType: string, payload: seq<byte>)
    ensures FilePartBody(boundary, filename, contentType, payload)
      == OpenLine(boundary) + (PartHeaders(filename, contentType) + [CR, LF, CR, LF] + (payload + CloseDelimiter(boundary)))
  {
    var open, disposition := Latin1("--" + boundary + "\r\n"), DispositionPrefix + filename + "\"\r\n";
    var t, close := "Content-Type: " + contentType, Latin1("\r\n--" + boundary + "--\r\n");
    StringAssoc(disposition, "Content-Type: ", contentType);
    Latin1Append(disposition, t);
    Latin1Append(t, "\r\n\r\n");
    assert Latin1("\r\n\r\n") == [CR, LF, CR, LF];
    var l2, l3, blank := Latin1(disposition), Latin1(t), [CR, LF, CR, LF];
    assert FilePartBody(boundary, filename, contentType, payload) == open + l2 + (l3 + blank) + payload + close;
    assert PartHeaders(filename, contentType) == l2 + l3;
    AppendAssoc(l2 + l3, blank, payload + close);
    AppendAssoc(l2, l3, blank);
    AppendAssoc(open + l2 + (l3 + blank), payload, close);
    AppendAssoc(open + l2, l3, blank);
    AppendAssoc(open, l2, l3 + blank);
    AppendAssoc(open, l2 + l3 + blank, payload + close);
  }

  /** The first empty line after the opening line is the one that ends the headers. */
  lemma HeaderEndFound(filename: string, contentType: string, tail: seq<byte>)
    requires SingleLine(Latin1(filename)) && SingleLine(Latin1(contentType))
    ensures var h := PartHeaders(filename, contentType);
      IndexOf(h + [CR, LF, CR, LF] + tail, [CR, LF, CR, LF]) == Some(|h|)
  {
    var h := PartHeaders(filename, contentType);
    var blank: seq<byte> := [CR, LF, CR, LF];
    PartHeadersShape(filename, contentType);
    var a := Latin1(DispositionPrefix + filename + "\"");
    var b := Latin1("Content-Type: " + contentType);
    HeadersHaveNoBlankLine(a, b);
    assert (h + blank)[..|h| + |blank| - 1] == (a + [CR, LF] + b + blank)[..|a| + 2 + |b| + 3];
    FirstAtJunction(h, blank, tail);
  }

  /** The first delimiter after the payload is the close-delimiter's. */
  lemma DelimiterFound(boundary: string, payload: seq<byte>)
    requires SingleLine(Latin1(boundary))
    requires !Contains(payload, Delimiter(boundary))
    ensures IndexOf(payload + CloseDelimiter(boundary), Delimiter(boundary)) == Some(|payload|)
  {
    var delim := Delimiter(boundary);
    Latin1Append("\r\n--" + boundary, "--\r\n");
    assert CloseDelimiter(boundary) == delim + Latin1("--\r\n");
    DelimiterHeadUnique(boundary);
    FirstAtJunctionUniqueHead(payload, delim, Latin1("--\r\n"));
    assert payload + CloseDelimiter(boundary) == payload + delim + Latin1("--\r\n");
  }

  /** Where the opening line, the headers, the payload and the close-delimiter sit in the body. */
  lemma FilePartSlices(boundary: string, filename: string, contentType: string, payload: seq<byte>)
    ensures var open := OpenLine(boundary);
      var h := PartHeaders(filename, contentType);
      var tail := payload + CloseDelimiter(boundary);
      var body := FilePartBody(boundary, filename, contentType, payload);
      && StartsWith(body, open)
      && body[|open|..] == h + [CR, LF, CR, LF] + tail
      && (h + [CR, LF, CR, LF] + tail)[..|h|] == h
      && (h + [CR, LF, CR, LF] + tail)[|h| + 4..] == tail
      && tail[..|payload|] == payload && tail[|payload|..] == CloseDelimiter(boundary)
  {
    var open := OpenLine(boundary);
    var h := PartHeaders(filename, contentType);
    var tail := payload + CloseDelimiter(boundary);
    var rest := h + [CR, LF, CR, LF] + tail;
    FilePartBodyLayout(boundary, filename, contentType, payload);
    assert FilePartBody(boundary, filename, contentType, payload)[..|open|] == open;
    assert FilePartBody(boundary, filename, contentType, payload)[|open|..] == rest;
    assert rest[..|h|] == h;
    assert rest[|h| + 4..] == tail;
    assert tail[..|payload|] == payload;
  }

  /**
   * Reading back what `FilePartBody` lays out gives the two header lines and
   * the payload unchanged, provided the header values hold no line break
   * once written as bytes and, as RFC 2046 requires of a boundary, the
   * delimiter does not occur in the payload.
   */
  lemma {:induction false} FilePartRoundTrip(boundary: string, filename: string, contentType: string, payload: seq<byte>)
    requires SingleLine(Latin1(boundary))
    requires SingleLine(Latin1(filename)) && SingleLine(Latin1(contentType))
    requires !Contains(payload, Delimiter(boundary))
    ensures ParseFilePart(FilePartBody(boundary, filename, contentType, payload), boundary)
      == Some(PartView(PartHeaders(filename, contentType), payload))
  {
    var tail := payload + CloseDelimiter(boundary);
    FilePartSlices(boundary, filename, contentType, payload);
    HeaderEndFound(filename, contentType, tail);
    DelimiterFound(boundary, payload);
  }

  /** `"----DiscloudBoundary" + System.currentTimeMillis()`; the clock reading is a parameter. */
  function Boundary(millis: nat): string
  {
    "----DiscloudBoundary" + NatToString(millis)
  }

  /** The boundary is printable ASCII, so its delimiter cannot be mistaken for a line break. */
  lemma BoundarySingleLine(millis: nat)
    ensures SingleLine(Latin1(Boundary(millis)))
  {
    assert Printable("----DiscloudBoundary");
    NatToStringDigits(millis);
    assert Printable(NatToString(millis));
    PrintableAppend("----DiscloudBoundary", NatToString(millis));
    PrintableSingleLine(Boundary(millis));
  }

  /**
   * The body both actions send reads back as one part carrying the file's
   * name, its content type and the payload unchanged, whenever the file name
   * has no line break once written as bytes and the payload does not contain
   * the delimiter.
   */
  lemma SentPartRoundTrip(millis: nat, filename: string, contentType: string, payload: seq<byte>)
    requires SingleLine(Latin1(filename)) && SingleLine(Latin1(contentType))
    requires !Contains(payload, Delimiter(Boundary(millis)))
    ensures ParseFilePart(FilePartBody(Boundary(millis), filename, contentType, payload), Boundary(millis))
      == Some(PartView(PartHeaders(filename, contentType), payload))
  {
    BoundarySingleLine(millis);
    FilePartRoundTrip(Boundary(millis), filename, contentType, payload);
  }
}
