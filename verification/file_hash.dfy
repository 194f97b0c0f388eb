/** Content sniffing and hash-input selection (service/FileHashService.java).
    Bytes are Java's signed bytes; the SHA-256 digest, PDFBox, Apache POI and
    UTF-8 decoding are foreign and enter as values. */
module FileHashService {
  import opened Wrappers
  import opened Strings

  /** Java `byte`. */
  newtype JByte = x: int | -128 <= x < 128

  /** `b & 0xFF`: the byte read as unsigned. */
  function Unsigned(b: JByte): (u: int)
    ensures 0 <= u < 256
    ensures (u - b as int) % 256 == 0
  {
    if b < 0 then b as int + 256 else b as int
  }

  // ---------------------------------------------------------------------
  // Magic numbers, one predicate per signature tested by the source.

  predicate IsJpeg(h: seq<JByte>) requires |h| >= 3
  { Unsigned(h[0]) == 0xFF && Unsigned(h[1]) == 0xD8 && Unsigned(h[2]) == 0xFF }

  predicate IsPng(h: seq<JByte>) requires |h| >= 4
  { Unsigned(h[0]) == 0x89 && h[1] == 0x50 && h[2] == 0x4E && h[3] == 0x47 }

  predicate IsGif(h: seq<JByte>) requires |h| >= 3
  { h[0] == 0x47 && h[1] == 0x49 && h[2] == 0x46 }

  predicate IsBmp(h: seq<JByte>) requires |h| >= 2
  { h[0] == 0x42 && h[1] == 0x4D }

  predicate IsPdf(h: seq<JByte>) requires |h| >= 4
  { h[0] == 0x25 && h[1] == 0x50 && h[2] == 0x44 && h[3] == 0x46 }

  /** "PK\x03\x04": a ZIP local header, which is also the Office Open XML container. */
  predicate IsOfficeZip(h: seq<JByte>) requires |h| >= 4
  { h[0] == 0x50 && h[1] == 0x4B && h[2] == 0x03 && h[3] == 0x04 }

  /** D0 CF 11 E0: the OLE2 compound file of legacy Office documents. */
  predicate IsOle(h: seq<JByte>) requires |h| >= 4
  { Unsigned(h[0]) == 0xD0 && Unsigned(h[1]) == 0xCF && h[2] == 0x11 && Unsigned(h[3]) == 0xE0 }

  predicate IsZip(h: seq<JByte>) requires |h| >= 3
  { h[0] == 0x50 && h[1] == 0x4B && (h[2] == 0x03 || h[2] == 0x05 || h[2] == 0x07) }

  predicate IsRar(h: seq<JByte>) requires |h| >= 4
  { h[0] == 0x52 && h[1] == 0x61 && h[2] == 0x72 && h[3] == 0x21 }

  /** 37 7A BC AF, compared against `(byte)0xBC` and `(byte)0xAF`. */
  predicate Is7z(h: seq<JByte>) requires |h| >= 4
  { h[0] == 0x37 && h[1] == 0x7A && h[2] == (0xBC - 256) as JByte && h[3] == (0xAF - 256) as JByte }

  predicate IsPe(h: seq<JByte>) requires |h| >= 2
  { h[0] == 0x4D && h[1] == 0x5A }

  predicate IsElf(h: seq<JByte>) requires |h| >= 4
  { h[0] == 0x7F && h[1] == 0x45 && h[2] == 0x4C && h[3] == 0x46 }

  /** An MPEG frame sync: FF, then a byte whose top three bits are set (`& 0xE0`). */
  predicate IsMp3(h: seq<JByte>) requires |h| >= 2
  { Unsigned(h[0]) == 0xFF && (Unsigned(h[1]) as bv8) & 0xE0 == 0xE0 }

  /** "RIFF". */
  predicate IsRiff(h: seq<JByte>) requires |h| >= 4
  { h[0] == 0x52 && h[1] == 0x49 && h[2] == 0x46 && h[3] == 0x46 }

  predicate IsFlac(h: seq<JByte>) requires |h| >= 4
  { h[0] == 0x66 && h[1] == 0x4C && h[2] == 0x61 && h[3] == 0x43 }

  /** "ftyp" at offset 4. */
  predicate IsMp4(h: seq<JByte>) requires |h| >= 8
  { h[4] == 0x66 && h[5] == 0x74 && h[6] == 0x79 && h[7] == 0x70 }

  /** "RIFF" then "AVI " at offset 8. The source reads bytes 8..11 only after
      "RIFF" matched, which the WAV test has already claimed, so the bounds
      guard here never changes the outcome. */
  predicate IsAvi(h: seq<JByte>)
  { |h| >= 12 && IsRiff(h) && h[8] == 0x41 && h[9] == 0x56 && h[10] == 0x49 && h[11] == 0x20 }

  // ---------------------------------------------------------------------
  // Text detection.

  /** Printable ASCII (32..126) or tab, line feed, carriage return. On signed
      bytes every value 0x80..0xFF is negative and so not printable. */
  predicate IsTextByte(b: JByte)
  {
    (32 <= b <= 126) || b == 9 || b == 10 || b == 13
  }

  function CountText(s: seq<JByte>): (n: nat)
    ensures n <= |s|
  {
    if s == [] then 0 else CountText(s[..|s| - 1]) + (if IsTextByte(s[|s| - 1]) then 1 else 0)
  }

  /** The verdict both text checks compute over the first `window` bytes: no
      zero byte there, and more than `percent` percent (integer division) of
      them text bytes. */
  predicate MostlyText(s: seq<JByte>, window: nat, percent: nat)
  {
    var n := if |s| < window then |s| else window;
    (forall i :: 0 <= i < n ==> s[i] != 0) && n > 0 && CountText(s[..n]) * 100 / n > percent
  }

  /** `isProbablyTextFile`: a counting loop over at most 512 bytes that gives up on a zero byte. */
  method IsProbablyTextFile(header: seq<JByte>) returns (r: bool)
    ensures r == MostlyText(header, 512, 95)
    ensures 0 in header[..if |header| < 512 then |header| else 512] ==> !r
  {
    var printableCount := 0;
    var totalBytes := if |header| < 512 then |header| else 512;
    for i := 0 to totalBytes
      invariant printableCount == CountText(header[..i])
      invariant forall k :: 0 <= k < i ==> header[k] != 0
    {
      var b := header[i];
      assert header[..i + 1][..i] == header[..i];
      if (b >= 32 && b <= 126) || b == 9 || b == 10 || b == 13 {
        printableCount := printableCount + 1;
      } else if b == 0 {
        return false;
      }
    }
    assert header[..totalBytes] == header[..totalBytes][..totalBytes];
    return totalBytes > 0 && printableCount * 100 / totalBytes > 95;
  }

  /** `isTextContent`: the same loop over at most 1024 bytes with a 90 percent threshold. */
  method IsTextContent(content: seq<JByte>) returns (r: bool)
    ensures r == MostlyText(content, 1024, 90)
    ensures |content| == 0 ==> !r
    ensures 0 in content[..if |content| < 1024 then |content| else 1024] ==> !r
  {
    var textBytes := 0;
    var totalBytes := if |content| < 1024 then |content| else 1024;
    for i := 0 to totalBytes
      invariant textBytes == CountText(content[..i])
      invariant forall k :: 0 <= k < i ==> content[k] != 0
    {
      var b := content[i];
      assert content[..i + 1][..i] == content[..i];
      if (b >= 32 && b <= 126) || b == 9 || b == 10 || b == 13 {
        textBytes := textBytes + 1;
      } else if b == 0 {
        return false;
      }
    }
    return totalBytes > 0 && textBytes * 100 / totalBytes > 90;
  }

  lemma {:induction false} CountTextAll(s: seq<JByte>)
    ensures CountText(s) == |s| <==> forall i :: 0 <= i < |s| ==> IsTextByte(s[i])
  {
    if s != [] {
      CountTextAll(s[..|s| - 1]);
      assert forall i :: 0 <= i < |s| - 1 ==> s[..|s| - 1][i] == s[i];
    }
  }

  /** On a 16-byte header one non-text byte already fails the 95 percent
      threshold (15 * 100 / 16 is 93), so the header counts as text exactly
      when all 16 bytes are text bytes. */
  lemma ProbablyTextOn16Bytes(h: seq<JByte>)
    requires |h| == 16
    ensures MostlyText(h, 512, 95) <==> forall i :: 0 <= i < 16 ==> IsTextByte(h[i])
  {
    assert h[..16] == h;
    CountTextAll(h);
    var c := CountText(h);
    assert c < 16 ==> c * 100 / 16 <= 93;
  }

  // ---------------------------------------------------------------------
  // Type detection.

  /** `detectFileTypeByMagicNumber`: a priority-ordered decision list. */
  function DetectFileTypeByMagicNumber(h: seq<JByte>): (r: string)
    ensures r in {"Images", "Documents", "Archives", "Applications", "Audio", "Videos", "Others"}
    ensures |h| >= 4 && (IsJpeg(h) || IsPng(h) || IsGif(h) || IsBmp(h)) ==> r == "Images"
    ensures |h| >= 8 && (IsPdf(h) || IsOle(h)) ==> r == "Documents"
    ensures r == "Videos" ==> |h| >= 8 && IsMp4(h)
    ensures |h| >= 8 && IsOfficeZip(h) ==> r == "Documents"
    ensures |h| >= 8 && r == "Archives" && h[0] == 0x50 && h[1] == 0x4B ==>
              h[2] == 0x05 || h[2] == 0x07 || (h[2] == 0x03 && h[3] != 0x04)
  {
    if |h| >= 4 && (IsJpeg(h) || IsPng(h) || IsGif(h) || IsBmp(h)) then "Images"
    else if |h| >= 8 && (IsPdf(h) || IsOfficeZip(h) || IsOle(h)) then "Documents"
    else if |h| >= 4 && (IsZip(h) || IsRar(h) || Is7z(h)) then "Archives"
    else if |h| >= 2 && IsPe(h) then "Applications"
    else if |h| >= 4 && IsElf(h) then "Applications"
    else if |h| >= 4 && (IsMp3(h) || IsRiff(h) || IsFlac(h)) then "Audio"
    else if |h| >= 8 && (IsMp4(h) || IsAvi(h)) then "Videos"
    else if MostlyText(h, 512, 95) then "Documents"
    else "Others"
  }

  /** A "RIFF" header is always audio: the AVI test after it can never fire. */
  lemma RiffIsAudio(h: seq<JByte>)
    requires |h| >= 4 && IsRiff(h)
    ensures DetectFileTypeByMagicNumber(h) == "Audio"
  {
  }

  /** What a read of the file gave: its bytes, an `IOException`, or some other
      runtime exception that escapes the detector. */
  datatype FileAccess = Readable(content: seq<JByte>) | IoFailure | RuntimeFailure

  /** The 16-byte buffer `file.read(header)` fills: the first bytes of the
      content, zero-padded to 16. */
  function Header16(content: seq<JByte>): (h: seq<JByte>)
    ensures |h| == 16
    ensures forall i :: 0 <= i < 16 ==> h[i] == if i < |content| then content[i] else 0
  {
    var n := if |content| < 16 then |content| else 16;
    content[..n] + seq(16 - n, _ => 0)
  }

  /** `detectFileTypeFromContent` on readable bytes. */
  function DetectFileTypeOfBytes(content: seq<JByte>): (r: string)
    ensures r == "Unknown" <==> |content| < 4
  {
    if |content| < 4 then "Unknown" else DetectFileTypeByMagicNumber(Header16(content))
  }

  /** `detectFileTypeFromContent`: "Unknown" when the file is shorter than
      4 bytes or cannot be read; None when a runtime exception escapes. */
  function DetectFileTypeFromContent(access: FileAccess): (r: Option<string>)
    ensures access.Readable? ==> r == Some(DetectFileTypeOfBytes(access.content))
    ensures access.IoFailure? ==> r == Some("Unknown")
    ensures r.None? <==> access.RuntimeFailure?
  {
    match access
    case Readable(content) => Some(DetectFileTypeOfBytes(content))
    case IoFailure => Some("Unknown")
    case RuntimeFailure => None
  }

  /** Because the header is zero-padded to 16 bytes, a file of 4 to 15 bytes
      never passes the text test: it is a document only through a document
      signature. */
  lemma ShortFilesAreNeverText(content: seq<JByte>)
    requires 4 <= |content| < 16
    ensures !MostlyText(Header16(content), 512, 95)
    ensures DetectFileTypeOfBytes(content) == "Documents" ==>
              var h := Header16(content); IsPdf(h) || IsOfficeZip(h) || IsOle(h)
  {
    var h := Header16(content);
    assert h[|content|] == 0;
  }

  // ---------------------------------------------------------------------
  // normalizeText.

  /** Drops the leading run of `\s` characters. */
  function DropSpaces(s: string): (r: string)
    ensures |r| <= |s| && r == s[|s| - |r|..]
    ensures r != [] ==> !IsRegexSpace(r[0])
    ensures forall k :: 0 <= k < |s| - |r| ==> IsRegexSpace(s[k])
  {
    if s != [] && IsRegexSpace(s[0]) then DropSpaces(s[1..]) else s
  }

  /** `replaceAll("\\s+", " ")`: every maximal run of `\s` becomes one space. */
  function CollapseSpaces(s: string): (r: string)
    ensures s != [] && !IsRegexSpace(s[0]) ==> r != [] && r[0] == s[0]
    decreases |s|
  {
    if s == [] then []
    else if IsRegexSpace(s[0]) then [' '] + CollapseSpaces(DropSpaces(s[1..]))
    else [s[0]] + CollapseSpaces(s[1..])
  }

  /** `replaceAll("\\n\\s*\\n", "\n")`: leftmost matches of a line feed, a run
      of `\s`, and a line feed; the greedy `\s*` makes a match end at the last
      line feed of the whitespace run that follows the first one. */
  function RemoveBlankLines(s: string): (r: string)
    ensures |r| <= |s|
    ensures s != [] ==> r != [] && r[0] == s[0]
    decreases |s|
  {
    if s == [] then []
    else if s[0] == '\n' then
      var run := s[1..][..|s| - 1 - |DropSpaces(s[1..])|];
      var last := LastIndexOf(run, '\n');
      if last >= 0 then "\n" + RemoveBlankLines(s[1 + last + 1..])
      else [s[0]] + RemoveBlankLines(s[1..])
    else [s[0]] + RemoveBlankLines(s[1..])
  }

  predicate NoAdjacentSpaces(s: string)
  {
    forall i :: 0 <= i < |s| - 1 ==> !(IsRegexSpace(s[i]) && IsRegexSpace(s[i + 1]))
  }

  /** After collapsing there is no line feed left. */
  lemma {:induction false} CollapseHasNoNewline(s: string)
    ensures '\n' !in CollapseSpaces(s)
    decreases |s|
  {
    if s == [] {
    } else if IsRegexSpace(s[0]) {
      CollapseHasNoNewline(DropSpaces(s[1..]));
    } else {
      CollapseHasNoNewline(s[1..]);
    }
  }

  /** Putting `c` in front keeps the property when `c` and the old first
      character are not both `\s`. */
  lemma NoAdjacentSpacesCons(c: char, t: string)
    requires NoAdjacentSpaces(t)
    requires t != [] && IsRegexSpace(c) ==> !IsRegexSpace(t[0])
    ensures NoAdjacentSpaces([c] + t)
  {
    forall i | 1 <= i < |t| ensures ([c] + t)[i] == t[i - 1] && ([c] + t)[i + 1] == t[i] {
    }
  }

  /** After collapsing no two adjacent characters are both `\s`. */
  lemma {:induction false} CollapseHasNoAdjacentSpaces(s: string)
    ensures NoAdjacentSpaces(CollapseSpaces(s))
    decreases |s|
  {
    if s == [] {
    } else if IsRegexSpace(s[0]) {
      var d := DropSpaces(s[1..]);
      CollapseHasNoAdjacentSpaces(d);
      NoAdjacentSpacesCons(' ', CollapseSpaces(d));
    } else {
      CollapseHasNoAdjacentSpaces(s[1..]);
      NoAdjacentSpacesCons(s[0], CollapseSpaces(s[1..]));
    }
  }

  /** Dropping leading spaces stops at or before the first non-space. */
  lemma {:induction false} DropSpacesStops(s: string, k: nat)
    requires k < |s| && !IsRegexSpace(s[k])
    ensures |s| - |DropSpaces(s)| <= k
    ensures DropSpaces(s)[k - (|s| - |DropSpaces(s)|)] == s[k]
    decreases |s|
  {
    if IsRegexSpace(s[0]) {
      DropSpacesStops(s[1..], k - 1);
    }
  }

  /** Collapsing keeps every character that is not `\s`. */
  lemma {:induction false} CollapseKeeps(s: string, k: nat)
    requires k < |s| && !IsRegexSpace(s[k])
    ensures s[k] in CollapseSpaces(s)
    decreases |s|
  {
    if IsRegexSpace(s[0]) {
      var rest := DropSpaces(s[1..]);
      DropSpacesStops(s[1..], k - 1);
      var j := k - 1 - (|s[1..]| - |rest|);
      CollapseKeeps(rest, j);
      assert CollapseSpaces(s) == [' '] + CollapseSpaces(rest);
    } else if k > 0 {
      CollapseKeeps(s[1..], k - 1);
      assert CollapseSpaces(s) == [s[0]] + CollapseSpaces(s[1..]);
    }
  }

  lemma NoAdjacentSpacesSlice(s: string, i: nat, j: nat)
    requires i <= j <= |s| && NoAdjacentSpaces(s)
    ensures NoAdjacentSpaces(s[i..j])
  {
    forall k | 0 <= k < j - i - 1
      ensures !(IsRegexSpace(s[i..j][k]) && IsRegexSpace(s[i..j][k + 1]))
    {
      assert s[i..j][k] == s[i + k] && s[i..j][k + 1] == s[i + k + 1];
    }
  }

  /** Without line feeds there is nothing for the blank-line pattern to match. */
  lemma {:induction false} RemoveBlankLinesNoOp(s: string)
    requires '\n' !in s
    ensures RemoveBlankLines(s) == s
    decreases |s|
  {
    if s != [] {
      RemoveBlankLinesNoOp(s[1..]);
    }
  }

  /** `normalizeText`: "" for null; otherwise whitespace collapsed, blank lines
      removed, trimmed and lower-cased. */
  function NormalizeText(text: Option<string>): (r: string)
    ensures text.None? ==> r == ""
    ensures r != [] ==> !IsTrimmable(r[0]) && !IsTrimmable(r[|r| - 1])
    ensures NoAdjacentSpaces(r)
    ensures forall i :: 0 <= i < |r| ==> !IsUpper(r[i])
    ensures text.Some? && Trim(text.value) != "" ==> r != ""
  {
    match text
    case None => ""
    case Some(t) =>
      NormalizeSteps(t);
      LowerKeepsSpacing(Trim(RemoveBlankLines(CollapseSpaces(t))));
      ToLower(Trim(RemoveBlankLines(CollapseSpaces(t))))
  }

  /** Lower-casing ASCII letters touches no whitespace and no character that
      `trim` removes. */
  lemma LowerKeepsSpacing(s: string)
    ensures NoAdjacentSpaces(s) ==> NoAdjacentSpaces(ToLower(s))
    ensures s != [] ==> (IsTrimmable(ToLower(s)[0]) <==> IsTrimmable(s[0]))
    ensures s != [] ==> (IsTrimmable(ToLower(s)[|s| - 1]) <==> IsTrimmable(s[|s| - 1]))
  {
    var r := ToLower(s);
    forall i | 0 <= i < |s|
      ensures (IsRegexSpace(r[i]) <==> IsRegexSpace(s[i])) && (IsTrimmable(r[i]) <==> IsTrimmable(s[i]))
    {
      assert r[i] == LowerChar(s[i]);
    }
  }

  lemma NormalizeSteps(t: string)
    ensures NoAdjacentSpaces(Trim(RemoveBlankLines(CollapseSpaces(t))))
    ensures Trim(t) != "" ==> Trim(RemoveBlankLines(CollapseSpaces(t))) != ""
  {
    var collapsed := CollapseSpaces(t);
    CollapseHasNoNewline(t);
    RemoveBlankLinesNoOp(collapsed);
    TrimKeepsNoAdjacentSpaces(t);
    if Trim(t) != "" {
      TrimOfCollapseNotEmpty(t);
    }
  }

  lemma NoAdjacentSpacesTrim(s: string)
    requires NoAdjacentSpaces(s)
    ensures NoAdjacentSpaces(Trim(s))
  {
    var i := |s| - |TrimStart(s)|;
    NoAdjacentSpacesSlice(s, i, i + |Trim(s)|);
  }

  lemma TrimKeepsNoAdjacentSpaces(t: string)
    ensures NoAdjacentSpaces(Trim(CollapseSpaces(t)))
  {
    CollapseHasNoAdjacentSpaces(t);
    NoAdjacentSpacesTrim(CollapseSpaces(t));
  }

  lemma TrimOfCollapseNotEmpty(t: string)
    requires Trim(t) != ""
    ensures Trim(CollapseSpaces(t)) != ""
  {
    var k :| 0 <= k < |t| && !IsTrimmable(t[k]);
    CollapseKeeps(t, k);
    var collapsed := CollapseSpaces(t);
    var m :| 0 <= m < |collapsed| && collapsed[m] == t[k];
    assert !IsTrimmable(collapsed[m]);
  }

  /** The second `replaceAll` never changes what the first one produced. */
  lemma BlankLineRemovalIsNoOp(t: string)
    ensures RemoveBlankLines(CollapseSpaces(t)) == CollapseSpaces(t)
  {
    CollapseHasNoNewline(t);
    RemoveBlankLinesNoOp(CollapseSpaces(t));
  }

  // ---------------------------------------------------------------------
  // Text extraction and the choice of what is hashed.

  /** What the foreign extractors give for one file: PDFBox, Apache POI for
      DOCX and DOC (None when they fail), and the UTF-8 decoding of its bytes. */
  datatype Extractors = Extractors(pdfText: Option<string>, docxText: Option<string>,
                                   docText: Option<string>, utf8Text: string)

  /** `extractGenericText`: the decoded bytes when they look like text. */
  function ExtractGenericText(content: seq<JByte>, lib: Extractors): (r: Option<string>)
    ensures r.Some? <==> MostlyText(content, 1024, 90)
  {
    if MostlyText(content, 1024, 90) then Some(lib.utf8Text) else None
  }

  /** `extractDocumentText`: PDF, then DOCX, then DOC signature (each needs 4
      bytes), otherwise the generic text extractor. */
  function ExtractDocumentText(content: seq<JByte>, lib: Extractors): (r: Option<string>)
    ensures |content| >= 4 && IsPdf(content) ==> r == lib.pdfText
    ensures |content| >= 4 && !IsPdf(content) && IsOfficeZip(content) ==> r == lib.docxText
    ensures |content| >= 4 && !IsPdf(content) && !IsOfficeZip(content) && IsOle(content) ==> r == lib.docText
    ensures (|content| < 4 || !(IsPdf(content) || IsOfficeZip(content) || IsOle(content))) ==>
              r == ExtractGenericText(content, lib)
  {
    if |content| >= 4 && IsPdf(content) then lib.pdfText
    else if |content| >= 4 && IsOfficeZip(content) then lib.docxText
    else if |content| >= 4 && IsOle(content) then lib.docText
    else ExtractGenericText(content, lib)
  }

  predicate IsBinaryType(fileType: string)
  {
    fileType in {"Images", "Applications", "Archives", "Audio", "Videos"}
  }

  /** `extractTextContent`: dispatch on the detected type. The image,
      application, archive, audio and video extractors always give null. */
  function ExtractTextContent(fileType: string, content: seq<JByte>, lib: Extractors): (r: Option<string>)
    ensures IsBinaryType(fileType) ==> r.None?
    ensures fileType == "Documents" ==> r == ExtractDocumentText(content, lib)
    ensures fileType != "Documents" && !IsBinaryType(fileType) ==> r == ExtractGenericText(content, lib)
  {
    match fileType
    case "Documents" => ExtractDocumentText(content, lib)
    case "Images" => None
    case "Applications" => None
    case "Archives" => None
    case "Audio" => None
    case "Videos" => None
    case _ => ExtractGenericText(content, lib)
  }

  /** What `generateSHA256Hash` feeds to SHA-256. */
  datatype HashInput = NormalizedText(text: string) | RawBytes(bytes: seq<JByte>)

  /** `generateSHA256Hash` / `generateUniversalContentHash`: the normalised
      extracted text when there is some that is not blank, otherwise the raw
      bytes. */
  function HashInputOf(content: seq<JByte>, lib: Extractors): (r: HashInput)
    ensures r.RawBytes? ==> r.bytes == content
    ensures r.NormalizedText? ==>
              r.text == NormalizeText(ExtractTextContent(DetectFileTypeOfBytes(content), content, lib))
    ensures r.NormalizedText? ==> r.text != "" && NoAdjacentSpaces(r.text)
    ensures r.NormalizedText? <==>
              var t := ExtractTextContent(DetectFileTypeOfBytes(content), content, lib);
              t.Some? && Trim(t.value) != ""
  {
    var fileType := DetectFileTypeOfBytes(content);
    var extracted := ExtractTextContent(fileType, content, lib);
    if extracted.Some? && Trim(extracted.value) != "" then NormalizedText(NormalizeText(extracted))
    else RawBytes(content)
  }

  /** Images, executables, archives, audio and video are always hashed on
      their raw bytes, whatever the extractors would say. */
  lemma BinaryTypesHashRawBytes(content: seq<JByte>, lib: Extractors)
    requires IsBinaryType(DetectFileTypeOfBytes(content))
    ensures HashInputOf(content, lib) == RawBytes(content)
  {
  }

  /** Two files whose extracted texts normalise alike get the same hash input,
      whatever their bytes: the cross-format comparison. */
  lemma SameTextSameHashInput(c1: seq<JByte>, l1: Extractors, c2: seq<JByte>, l2: Extractors)
    requires HashInputOf(c1, l1).NormalizedText? && HashInputOf(c2, l2).NormalizedText?
    requires NormalizeText(ExtractTextContent(DetectFileTypeOfBytes(c1), c1, l1)) ==
             NormalizeText(ExtractTextContent(DetectFileTypeOfBytes(c2), c2, l2))
    ensures HashInputOf(c1, l1) == HashInputOf(c2, l2)
  {
  }
}
