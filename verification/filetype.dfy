/** Magic-number file sniffing of common/filetype.go: the MIME type of a
    data URI, the text heuristic and DetectFileType. Base64 decoding is a
    parameter. */
module FileType {
  import opened Wrappers
  import opened Str
  import opened Utf8

  const TxtType := "text/plain"
  const PdfType := "application/pdf"
  const DocType := "application/msword"
  const JpgType := "image/jpeg"
  const PngType := "image/png"
  const WebpType := "image/webp"

  datatype FileTypeResult = FileTypeResult(mimeType: string, extension: string, description: string, isValid: bool)

  // ---------------------------------------------------------------------
  // getMimeTypeFromDataURI: the regular expression data:([^;]+);base64,

  /** The regular expression matches at `p` with capture `c`. */
  ghost predicate Matches(s: string, p: int, c: string) {
    && |c| > 0
    && (forall k :: 0 <= k < |c| ==> c[k] != ';')
    && OccursAt(s, "data:" + c + ";base64,", p)
  }

  /** The capture of a match starting at `p`, if there is one: the run of
      non-';' characters after "data:" must be non-empty and followed by
      ";base64,". */
  function MatchAt(s: string, p: nat): (r: Option<string>)
    ensures r.Some? ==> |r.value| > 0
  {
    if !OccursAt(s, "data:", p) then None
    else
      match IndexFrom(s, ";", p + 5)
      case None => None
      case Some(q) => if q > p + 5 && OccursAt(s, ";base64,", q) then Some(s[p + 5..q]) else None
  }

  /** MatchAt finds exactly the matches of the expression (a match at a
      given start has only one possible capture). */
  lemma MatchAtIff(s: string, p: nat, c: string)
    ensures MatchAt(s, p) == Some(c) <==> Matches(s, p, c)
  {
    if MatchAt(s, p) == Some(c) {
      MatchAtSound(s, p, c);
    }
    if Matches(s, p, c) {
      MatchAtComplete(s, p, c);
    }
  }

  lemma MatchAtSound(s: string, p: nat, c: string)
    requires MatchAt(s, p) == Some(c)
    ensures Matches(s, p, c)
  {
    var w := "data:" + c + ";base64,";
    var q := p + 5 + |c|;
    assert s[p..p + 5] == "data:";
    assert s[q..q + 8] == ";base64,";
    assert s[p + 5..q] == c;
    assert s[p..p + |w|] == s[p..p + 5] + s[p + 5..q] + s[q..q + 8];
    forall k | 0 <= k < |c| ensures c[k] != ';' {
      assert !OccursAt(s, ";", p + 5 + k);
      assert s[p + 5 + k..p + 5 + k + 1] == [s[p + 5 + k]];
    }
  }

  lemma MatchAtComplete(s: string, p: nat, c: string)
    requires Matches(s, p, c)
    ensures MatchAt(s, p) == Some(c)
  {
    var w := "data:" + c + ";base64,";
    var q := p + 5 + |c|;
    assert |w| == |c| + 13;
    assert s[p..p + |w|] == w;
    assert s[p..p + 5] == w[..5];
    assert s[q..q + 8] == w[5 + |c|..];
    forall k | 0 <= k < |c| ensures s[p + 5 + k] == c[k] {
      assert s[p + 5 + k] == s[p..p + |w|][5 + k] == w[5 + k];
    }
    assert s[p + 5..q] == c;
    forall j | p + 5 <= j < q ensures !OccursAt(s, ";", j) {
      assert s[j] == c[j - p - 5];
      assert s[j..j + 1] == [s[j]];
    }
    assert OccursAt(s, ";", q) by { assert s[q..q + 1] == [s[q]]; assert s[q] == w[5 + |c|]; }
  }

  function MimeFrom(s: string, p: nat): (r: string)
    decreases |s| - p
  {
    if p > |s| then ""
    else
      match MatchAt(s, p)
      case Some(c) => c
      case None => MimeFrom(s, p + 1)
  }

  /** getMimeTypeFromDataURI: the capture of the leftmost match, or "". */
  function GetMimeTypeFromDataUri(s: string): string {
    MimeFrom(s, 0)
  }

  lemma {:induction false} MimeFromLeftmost(s: string, p: nat)
    ensures var r := MimeFrom(s, p);
            && (r == "" <==> forall j :: p <= j <= |s| ==> MatchAt(s, j).None?)
            && (r != "" ==> exists j :: p <= j <= |s| && MatchAt(s, j) == Some(r)
                                        && forall i :: p <= i < j ==> MatchAt(s, i).None?)
    decreases |s| - p
  {
    var r := MimeFrom(s, p);
    if p > |s| {
      assert r == "";
    } else if MatchAt(s, p).Some? {
      assert r == MatchAt(s, p).value != "";
      assert MatchAt(s, p) == Some(r);
    } else {
      MimeFromLeftmost(s, p + 1);
      assert r == MimeFrom(s, p + 1);
      if r != "" {
        var j :| p + 1 <= j <= |s| && MatchAt(s, j) == Some(r) && forall i :: p + 1 <= i < j ==> MatchAt(s, i).None?;
        assert forall i :: p <= i < j ==> MatchAt(s, i).None?;
      }
    }
  }

  /** The result is "" exactly when the expression matches nowhere;
      otherwise it is the capture of the leftmost match. */
  lemma MimeTypeIsLeftmostCapture(s: string)
    ensures var r := GetMimeTypeFromDataUri(s);
            && (r == "" <==> forall j :: 0 <= j <= |s| ==> MatchAt(s, j).None?)
            && (r != "" ==> exists j :: 0 <= j <= |s| && Matches(s, j, r)
                                        && forall i :: 0 <= i < j ==> MatchAt(s, i).None?)
  {
    MimeFromLeftmost(s, 0);
    var r := GetMimeTypeFromDataUri(s);
    if r != "" {
      var j :| 0 <= j <= |s| && MatchAt(s, j) == Some(r) && forall i :: 0 <= i < j ==> MatchAt(s, i).None?;
      MatchAtIff(s, j, r);
    }
  }

  // ---------------------------------------------------------------------
  // isTextFile

  /** Not TAB, LF or CR, outside printable ASCII, and not a byte that can
      start a multi-byte UTF-8 sequence (>= 192). */
  predicate NonPrintable(b: byte) {
    b != 9 && b != 10 && b != 13 && (b < 32 || b > 126) && b < 192
  }

  function CountNonPrintable(d: seq<byte>): (n: nat)
    ensures n <= |d|
  {
    if |d| == 0 then 0
    else CountNonPrintable(d[..|d| - 1]) + (if NonPrintable(d[|d| - 1]) then 1 else 0)
  }

  lemma {:induction false} CountNonPrintableAppend(a: seq<byte>, b: seq<byte>)
    ensures CountNonPrintable(a + b) == CountNonPrintable(a) + CountNonPrintable(b)
    decreases |b|
  {
    if |b| > 0 {
      assert (a + b)[..|a + b| - 1] == a + b[..|b| - 1];
      CountNonPrintableAppend(a, b[..|b| - 1]);
    } else {
      assert a + b == a;
    }
  }

  predicate HasBom(d: seq<byte>) {
    || (|d| >= 3 && d[0] == 0xEF && d[1] == 0xBB && d[2] == 0xBF)
    || (|d| >= 2 && d[0] == 0xFE && d[1] == 0xFF)
    || (|d| >= 2 && d[0] == 0xFF && d[1] == 0xFE)
  }

  const HeadWindow := 4096
  const TailWindow := 1024
  const TailThreshold := 5120

  /** The bytes the heuristic looks at: the first 4096 (or all), plus the
      last 1024 when there are more than 5120. */
  function Sample(d: seq<byte>): (w: seq<byte>)
  {
    var head := if |d| < HeadWindow then d else d[..HeadWindow];
    if |d| > TailThreshold then head + d[|d| - TailWindow..] else head
  }

  /** isTextFile; the float test nonPrintable/total < 0.05 is the integer
      test 20 * nonPrintable < total. */
  predicate IsTextFile(d: seq<byte>) {
    if |d| == 0 then false
    else if HasBom(d) then true
    else 20 * CountNonPrintable(Sample(d)) < |Sample(d)|
  }

  /** isTextFile as the source computes it, with its two counting loops. */
  method IsTextFileScan(data: seq<byte>) returns (r: bool)
    ensures r == IsTextFile(data)
  {
    if |data| == 0 {
      return false;
    }
    if HasBom(data) {
      return true;
    }
    var checkSize := HeadWindow;
    if |data| < checkSize {
      checkSize := |data|;
    }
    var totalNonPrintable := 0;
    var totalChars := 0;
    var i := 0;
    while i < checkSize
      invariant 0 <= i <= checkSize
      invariant totalChars == i
      invariant totalNonPrintable == CountNonPrintable(data[..i])
    {
      var b := data[i];
      totalChars := totalChars + 1;
      if b != 9 && b != 10 && b != 13 {
        if (b < 32 || b > 126) && b < 192 {
          totalNonPrintable := totalNonPrintable + 1;
        }
      }
      assert data[..i + 1][..i] == data[..i];
      i := i + 1;
    }
    var head := data[..checkSize];
    if |data| > TailThreshold {
      var endOffset := |data| - TailWindow;
      i := 0;
      while i < TailWindow
        invariant 0 <= i <= TailWindow
        invariant totalChars == checkSize + i
        invariant totalNonPrintable == CountNonPrintable(head) + CountNonPrintable(data[endOffset..endOffset + i])
      {
        var b := data[endOffset + i];
        totalChars := totalChars + 1;
        if b != 9 && b != 10 && b != 13 {
          if (b < 32 || b > 126) && b < 192 {
            totalNonPrintable := totalNonPrintable + 1;
          }
        }
        assert data[endOffset..endOffset + i + 1][..i] == data[endOffset..endOffset + i];
        i := i + 1;
      }
      CountNonPrintableAppend(head, data[endOffset..]);
      assert data[endOffset..endOffset + i] == data[endOffset..];
    } else {
      assert Sample(data) == head;
    }
    r := 20 * totalNonPrintable < totalChars;
  }

  /** Empty data is never text; data with a UTF-8 or UTF-16 byte-order mark
      always is. */
  lemma TextEdgeCases(d: seq<byte>)
    ensures |d| == 0 ==> !IsTextFile(d)
    ensures HasBom(d) ==> IsTextFile(d)
  {
  }

  /** Bytes outside the sampled windows never change the verdict. */
  lemma TextIgnoresMiddle(d1: seq<byte>, d2: seq<byte>)
    requires |d1| == |d2|
    requires forall k :: 0 <= k < |d1| && (k < HeadWindow || (|d1| > TailThreshold && k >= |d1| - TailWindow)) ==> d1[k] == d2[k]
    ensures IsTextFile(d1) == IsTextFile(d2)
  {
    assert Sample(d1) == Sample(d2);
    assert HasBom(d1) == HasBom(d2);
  }

  // ---------------------------------------------------------------------
  // DetectFileType

  predicate IsPdf(d: seq<byte>) { |d| >= 4 && d[..4] == [37, 80, 68, 70] }                     // "%PDF"
  predicate IsJpeg(d: seq<byte>) { |d| >= 3 && d[0] == 0xFF && d[1] == 0xD8 && d[2] == 0xFF }
  predicate IsPng(d: seq<byte>) { |d| >= 8 && d[..8] == [0x89, 0x50, 0x4E, 0x47, 0x0D, 0x0A, 0x1A, 0x0A] }
  predicate IsWebp(d: seq<byte>) { |d| >= 12 && d[..4] == [82, 73, 70, 70] && d[8..12] == [87, 69, 66, 80] }  // "RIFF" .. "WEBP"
  predicate IsDoc(d: seq<byte>) { |d| >= 8 && d[..4] == [0xD0, 0xCF, 0x11, 0xE0] }

  datatype Kind = Pdf | Jpeg | Png | Webp | Doc | Text | Unknown

  /** The magic-number checks in their fixed order, then the text heuristic. */
  function Sniff(d: seq<byte>): Kind {
    if IsPdf(d) then Pdf
    else if IsJpeg(d) then Jpeg
    else if IsPng(d) then Png
    else if IsWebp(d) then Webp
    else if IsDoc(d) then Doc
    else if IsTextFile(d) then Text
    else Unknown
  }

  /** The five signatures differ in their first byte, so at most one holds
      and each is recognised exactly when present; text is reported only
      when none is present. */
  lemma SniffCharacterised(d: seq<byte>)
    ensures Sniff(d) == Pdf <==> IsPdf(d)
    ensures Sniff(d) == Jpeg <==> IsJpeg(d)
    ensures Sniff(d) == Png <==> IsPng(d)
    ensures Sniff(d) == Webp <==> IsWebp(d)
    ensures Sniff(d) == Doc <==> IsDoc(d)
    ensures Sniff(d) == Text <==> !IsPdf(d) && !IsJpeg(d) && !IsPng(d) && !IsWebp(d) && !IsDoc(d) && IsTextFile(d)
  {
    if IsPdf(d) { assert d[0] == d[..4][0] == 37; }
    if IsPng(d) { assert d[0] == d[..8][0] == 0x89; }
    if IsWebp(d) { assert d[0] == d[..4][0] == 82; }
    if IsDoc(d) { assert d[0] == d[..4][0] == 0xD0; }
  }

  function TextResult(): FileTypeResult {
    FileTypeResult(TxtType, ".txt", "Plain Text Document", true)
  }

  function ResultFor(k: Kind): FileTypeResult {
    match k
    case Pdf => FileTypeResult(PdfType, ".pdf", "PDF Document", true)
    case Jpeg => FileTypeResult(JpgType, ".jpg", "JPEG Image", true)
    case Png => FileTypeResult(PngType, ".png", "PNG Image", true)
    case Webp => FileTypeResult(WebpType, ".webp", "WebP Image", true)
    case Doc => FileTypeResult(DocType, ".doc", "Microsoft Word Document", true)
    case Text => TextResult()
    case Unknown => FileTypeResult("", "", "未识别文件类型", false)
  }

  /** Everything after the first ',', or the whole text without one. */
  function AfterComma(s: string): (r: string)
    ensures |r| <= |s|
  {
    match Index(s, ",")
    case None => s
    case Some(i) => s[i + 1..]
  }

  /** DetectFileType */
  function DetectFileType(s: string, decode: string -> Option<seq<byte>>): (r: FileTypeResult)
    ensures r.isValid ==> r.mimeType != "" && r.extension != ""
    ensures !r.isValid ==> r.mimeType == "" && r.extension == ""
  {
    if GetMimeTypeFromDataUri(s) == TxtType then TextResult()
    else
      match decode(AfterComma(s))
      case None => FileTypeResult("", "", "Base64 解码失败", false)
      case Some(data) => ResultFor(Sniff(data))
  }

  /** A "text/plain" data URI is reported as text whatever the payload,
      without consulting the decoder; otherwise the decoded payload after
      the first ',' decides, and a decode failure is invalid. */
  lemma DetectFileTypeCases(s: string, decode: string -> Option<seq<byte>>, other: string -> Option<seq<byte>>)
    ensures GetMimeTypeFromDataUri(s) == TxtType ==>
              DetectFileType(s, decode) == DetectFileType(s, other) == TextResult()
    ensures GetMimeTypeFromDataUri(s) != TxtType && decode(AfterComma(s)).None? ==>
              !DetectFileType(s, decode).isValid
    ensures GetMimeTypeFromDataUri(s) != TxtType && decode(AfterComma(s)).Some? ==>
              DetectFileType(s, decode) == ResultFor(Sniff(decode(AfterComma(s)).value))
  {
  }

  /** A Word signature on fewer than 8 bytes is not a document; those four
      bytes alone fall through to the text heuristic and are rejected. */
  lemma ShortDocSignature()
    ensures Sniff([0xD0, 0xCF, 0x11, 0xE0]) == Unknown
  {
    var d: seq<byte> := [0xD0, 0xCF, 0x11, 0xE0];
    assert Sample(d) == d;
    assert d[..3][..2] == [0xD0, 0xCF];
    var d1 := d[..1];
    var d2 := d[..2];
    var d3 := d[..3];
    assert CountNonPrintable(d1) == 0 by { assert d1[..0] == []; }
    assert CountNonPrintable(d2) == 0 by { assert d2[..1] == d1; }
    assert CountNonPrintable(d3) == 1 by { assert d3[..2] == d2; }
    assert CountNonPrintable(d) == 1 by { assert d[..3] == d3; }
  }
}
