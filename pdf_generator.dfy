/** The decisions page 1 of the filled CHP 108A form makes: which text each
    checklist row shows, which half-cells carry an X, what each cell of the
    3x4 date and signature grids shows, and how a signature image is decoded
    and scaled. Drawing itself is not modelled: each drawn item is a value
    recording what is drawn. Text measurement, base64 decoding and PNG
    embedding are given by the caller; a decoder that throws returns None. */
module PdfGenerator {
  import opened Wrappers
  import opened Inspection
  import opened CivilDate
  import opened DateUtils

  // ---------------------------------------------------------------------
  // Checklist rows

  /** Width of the item-description column, in points. */
  const ITEM_DESC_WIDTH: real := 240.0

  /** Widest description text drawn: the column less its padding. */
  const MAX_DESC_WIDTH: real := ITEM_DESC_WIDTH - 8.0

  /** The width the row font gives a text at the row size. */
  type Measure = string -> real

  /** Length of the prefix the truncation loop stops at when it starts from
      desc[..k]: the longest prefix no longer than k that fits, or 0. */
  function KeptLength(desc: string, width: Measure, k: nat): (r: nat)
    requires k <= |desc|
    ensures r <= k
    ensures r == 0 || width(desc[..r]) <= MAX_DESC_WIDTH
    ensures forall j :: r < j <= k ==> width(desc[..j]) > MAX_DESC_WIDTH
  {
    if k == 0 || width(desc[..k]) <= MAX_DESC_WIDTH then k
    else KeptLength(desc, width, k - 1)
  }

  /** `t.slice(0, -3)`: the text without its last three characters, which is
      empty when it has fewer than three. */
  function DropLastThree(t: string): (r: string)
    ensures |r| == (if |t| >= 3 then |t| - 3 else 0)
    ensures r == t[..|r|]
  {
    if |t| >= 3 then t[..|t| - 3] else ""
  }

  /** The description as drawn: unchanged when nothing had to be cut,
      otherwise the kept prefix with its last three characters replaced by
      an ellipsis. So the drawn text is the description itself, or a prefix
      of it followed by "...". */
  function FittedDescription(desc: string, width: Measure): (r: string)
    ensures r == desc || (3 <= |r| < |desc| + 3 && r[|r| - 3..] == "..." && r[..|r| - 3] == desc[..|r| - 3])
  {
    var kept := desc[..KeptLength(desc, width, |desc|)];
    if |kept| < |desc| then
      var d := DropLastThree(kept);
      assert (d + "...")[..|d|] == d && (d + "...")[|d|..] == "...";
      d + "..."
    else
      assert kept == desc;
      kept
  }

  /** The truncation loop of one row: drop the last character while the
      text is too wide and not empty, then mark a cut with an ellipsis. */
  method TruncateDescription(desc: string, width: Measure) returns (truncatedDesc: string)
    ensures truncatedDesc == FittedDescription(desc, width)
  {
    truncatedDesc := desc;
    while width(truncatedDesc) > MAX_DESC_WIDTH && |truncatedDesc| > 0
      invariant |truncatedDesc| <= |desc| && truncatedDesc == desc[..|truncatedDesc|]
      invariant KeptLength(desc, width, |truncatedDesc|) == KeptLength(desc, width, |desc|)
      decreases |truncatedDesc|
    {
      truncatedDesc := truncatedDesc[..|truncatedDesc| - 1];
    }
    if |truncatedDesc| < |desc| {
      truncatedDesc := DropLastThree(truncatedDesc) + "...";
    }
  }

  /** A description that fits (or is empty) is drawn unchanged. */
  lemma FittingDescriptionUnchanged(desc: string, width: Measure)
    requires |desc| == 0 || width(desc) <= MAX_DESC_WIDTH
    ensures FittedDescription(desc, width) == desc
  {
    assert desc[..|desc|] == desc;
  }

  /** A description that does not fit is cut: the drawn text ends in "...",
      what precedes the dots is a prefix of the description, and the drawn
      length is the kept length when that is at least 3, and 3 otherwise. */
  lemma CutDescriptionShape(desc: string, width: Measure)
    requires |desc| > 0 && width(desc) > MAX_DESC_WIDTH
    ensures KeptLength(desc, width, |desc|) < |desc|
    ensures var k := KeptLength(desc, width, |desc|);
            var f := FittedDescription(desc, width);
            && |f| == (if k >= 3 then k else 3)
            && f[|f| - 3..] == "..."
            && f[..|f| - 3] == desc[..|f| - 3]
  {
    assert desc[..|desc|] == desc;
    var k := KeptLength(desc, width, |desc|);
    var kept := desc[..k];
    var d := DropLastThree(kept);
    var f := d + "...";
    assert f == FittedDescription(desc, width);
    assert f[..|d|] == d && f[|d|..] == "...";
    assert d == desc[..|d|];
  }

  /** The prefix of a row: a star for the items 34505 CVC requires. */
  function RowPrefix(row: nat): (r: string)
    ensures |r| == 2 && r[1] == ' ' && (r[0] == '*' || r[0] == ' ')
  {
    if ItemNumber(row) <= 21 then "* " else "  "
  }

  /** Row r is starred exactly when its item number is one of the CVC
      items, and is otherwise indented by two spaces. */
  lemma StarredRowsAreCvcItems(row: nat)
    ensures RowPrefix(row) == "* " <==> ItemNumber(row) in CVC_REQUIRED_ITEMS
    ensures RowPrefix(row) != "* " ==> RowPrefix(row) == "  "
  {
    ItemTables();
  }

  /** The text drawn in the description cell of a row of the item table. */
  function RowText(items: seq<string>, row: nat, width: Measure): string
    requires row < |items|
  {
    RowPrefix(row) + FittedDescription(items[row], width)
  }

  /** The texts of all rows of the item table. */
  function RowTexts(items: seq<string>, width: Measure): seq<string>
  {
    seq(|items|, row requires 0 <= row < |items| => RowText(items, row, width))
  }

  /** Extending a prefix of t by t's next element gives the next prefix. */
  lemma PrefixStep<T>(t: seq<T>, i: nat)
    requires i < |t|
    ensures t[..i] + [t[i]] == t[..i + 1]
  {
  }

  /** The half of a month column a mark goes in. */
  datatype Half = OkHalf | DefHalf

  /** An X drawn in one half of the cell of a row and a month column. */
  datatype CellMark = CellMark(row: nat, column: nat, half: Half)

  /** The marks of one cell, OK half first: at most two, all in that cell. */
  function CellMarks(mi: MonthInspection, row: nat, column: nat): (r: seq<CellMark>)
    ensures |r| <= 2
    ensures forall k :: 0 <= k < |r| ==> r[k].row == row && r[k].column == column
    ensures |r| == 2 ==> r[0].half == OkHalf && r[1].half == DefHalf
  {
    (if mi.ok then [CellMark(row, column, OkHalf)] else [])
    + (if mi.def then [CellMark(row, column, DefHalf)] else [])
  }

  /** The marks of the first n month columns of a row. */
  function RowMarks(months: map<Month, MonthInspection>, row: nat, n: nat): seq<CellMark>
    requires Complete(months) && n <= |MONTHS|
  {
    if n == 0 then [] else RowMarks(months, row, n - 1) + CellMarks(months[MONTHS[n - 1]], row, n - 1)
  }

  /** The marks of the first n rows. */
  function TableMarks(months: map<Month, MonthInspection>, n: nat): seq<CellMark>
    requires Complete(months)
  {
    if n == 0 then [] else TableMarks(months, n - 1) + RowMarks(months, n - 1, |MONTHS|)
  }

  /** The month column's half is checked in the record. */
  predicate HalfChecked(months: map<Month, MonthInspection>, column: nat, half: Half)
    requires Complete(months)
  {
    column < |MONTHS| && (if half == OkHalf then months[MONTHS[column]].ok else months[MONTHS[column]].def)
  }

  lemma CellMarksExact(mi: MonthInspection, row: nat, column: nat, mark: CellMark)
    ensures mark in CellMarks(mi, row, column) <==>
              mark.row == row && mark.column == column && (if mark.half == OkHalf then mi.ok else mi.def)
  {
  }

  lemma {:induction false} RowMarksExact(months: map<Month, MonthInspection>, row: nat, n: nat, mark: CellMark)
    requires Complete(months) && n <= |MONTHS|
    ensures mark in RowMarks(months, row, n) <==> mark.row == row && mark.column < n && HalfChecked(months, mark.column, mark.half)
  {
    if n > 0 {
      RowMarksExact(months, row, n - 1, mark);
      CellMarksExact(months[MONTHS[n - 1]], row, n - 1, mark);
    }
  }

  /** In each of the first n rows, month column c carries an X in its OK
      half exactly when that month is OK, and in its DEF half exactly when
      it is DEF, whatever the row: the marks depend on nothing else. */
  lemma {:induction false} TableMarksExact(months: map<Month, MonthInspection>, n: nat, mark: CellMark)
    requires Complete(months)
    ensures mark in TableMarks(months, n) <==> mark.row < n && HalfChecked(months, mark.column, mark.half)
  {
    if n > 0 {
      TableMarksExact(months, n - 1, mark);
      RowMarksExact(months, n - 1, |MONTHS|, mark);
    }
  }

  /** The checklist rows of the item table (INSPECTION_ITEMS on the page):
      each row's text, and the marks of all rows in row order, then column
      order. */
  method DrawItemRows(items: seq<string>, months: map<Month, MonthInspection>, width: Measure)
    returns (texts: seq<string>, marks: seq<CellMark>)
    requires Complete(months)
    ensures texts == RowTexts(items, width)
    ensures marks == TableMarks(months, |items|)
  {
    texts, marks := [], [];
    for row := 0 to |items|
      invariant texts == RowTexts(items, width)[..row]
      invariant marks == TableMarks(months, row)
    {
      var text := DrawRowText(items, row, width);
      PrefixStep(RowTexts(items, width), row);
      texts := texts + [text];
      marks := DrawRowMarks(months, row, marks);
    }
    assert RowTexts(items, width)[..|items|] == RowTexts(items, width);
  }

  /** The description cell of one row: its prefix and its fitted description. */
  method DrawRowText(items: seq<string>, row: nat, width: Measure) returns (text: string)
    requires row < |items|
    ensures text == RowTexts(items, width)[row]
  {
    var truncatedDesc := TruncateDescription(items[row], width);
    text := RowPrefix(row) + truncatedDesc;
  }

  /** The month columns of one row: an X in the OK half of each OK month and
      in the DEF half of each DEF month, appended to the marks so far. */
  method DrawRowMarks(months: map<Month, MonthInspection>, row: nat, marks0: seq<CellMark>) returns (marks: seq<CellMark>)
    requires Complete(months)
    ensures marks == marks0 + RowMarks(months, row, |MONTHS|)
  {
    marks := marks0;
    for i := 0 to |MONTHS|
      invariant marks == marks0 + RowMarks(months, row, i)
    {
      var monthData := months[MONTHS[i]];
      ghost var start := marks;
      if monthData.ok {
        marks := marks + [CellMark(row, i, OkHalf)];
      }
      if monthData.def {
        marks := marks + [CellMark(row, i, DefHalf)];
      }
      assert marks == start + CellMarks(monthData, row, i);
    }
  }

  // ---------------------------------------------------------------------
  // The 3x4 grids

  /** The month index a grid cell shows. */
  function GridIndex(row: nat, col: nat): nat
  {
    row * 4 + col
  }

  /** The 3 rows by 4 columns of the grids show each month index 0..11
      exactly once, so the guard against an index of 12 or more never
      fires. */
  lemma GridIndexing()
    ensures forall row, col :: 0 <= row < 3 && 0 <= col < 4 ==> GridIndex(row, col) < |MONTHS|
    ensures forall k :: 0 <= k < |MONTHS| ==> k / 4 < 3 && GridIndex(k / 4, k % 4) == k
    ensures forall r1, c1, r2, c2 :: 0 <= c1 < 4 && 0 <= c2 < 4 && GridIndex(r1, c1) == GridIndex(r2, c2) ==> r1 == r2 && c1 == c2
  {
  }

  /** A cell of the inspection-dates grid: the month heading and the date,
      where an empty date is not drawn. */
  datatype DateCell = DateCell(heading: string, date: string)

  function DateCellFor(months: map<Month, MonthInspection>, k: nat): DateCell
    requires Complete(months) && k < |MONTHS|
  {
    DateCell(ToUpper(FullName(MONTHS[k])) + ":", FormatDateForPDF(months[MONTHS[k]].date))
  }

  /** The twelve date cells in month order. */
  function DateCells(months: map<Month, MonthInspection>): seq<DateCell>
    requires Complete(months)
  {
    seq(|MONTHS|, k requires 0 <= k < |MONTHS| => DateCellFor(months, k))
  }

  /** A date cell draws a date exactly when the slot holds a valid date, and
      it is then ten characters long. */
  lemma DateCellShowsValidDates(months: map<Month, MonthInspection>, k: nat)
    requires Complete(months) && k < |MONTHS|
    ensures DateCellFor(months, k).date != "" <==> ParseIso(months[MONTHS[k]].date).Some?
    ensures DateCellFor(months, k).date != "" ==> |DateCellFor(months, k).date| == 10
  {
  }

  /** The inspection-dates grid, row by row and column by column. */
  method DrawDateGrid(months: map<Month, MonthInspection>) returns (cells: seq<DateCell>)
    requires Complete(months)
    ensures cells == DateCells(months)
  {
    cells := [];
    for row := 0 to 3
      invariant |cells| == row * 4
      invariant cells == DateCells(months)[..|cells|]
    {
      for col := 0 to 4
        invariant |cells| == row * 4 + col
        invariant cells == DateCells(months)[..|cells|]
      {
        var monthIndex := GridIndex(row, col);
        if monthIndex < |MONTHS| {
          var month := MONTHS[monthIndex];
          var cell := DateCell(ToUpper(FullName(month)) + ":", FormatDateForPDF(months[month].date));
          assert cell == DateCells(months)[monthIndex];
          PrefixStep(DateCells(months), monthIndex);
          cells := cells + [cell];
        }
      }
    }
    assert DateCells(months)[..|MONTHS|] == DateCells(months);
  }

  // ---------------------------------------------------------------------
  // Signatures

  const PNG_DATA_URI_PREFIX: string := "data:image/png;base64,"
  const JPEG_DATA_URI_PREFIX: string := "data:image/jpeg;base64,"

  /** The characters a regular-expression `.` does not match. */
  predicate IsLineTerminator(c: char)
  {
    c == '\n' || c == '\r' || c == '\U{2028}' || c == '\U{2029}'
  }

  /** What `(.+)$` accepts: one or more characters, none a line terminator. */
  predicate IsRegexPayload(s: string)
  {
    |s| > 0 && forall i :: 0 <= i < |s| ==> !IsLineTerminator(s[i])
  }

  /** The rest of s after the prefix, if s starts with it and the rest is a
      payload. */
  function PayloadAfter(s: string, prefix: string): Option<string>
  {
    if |prefix| <= |s| && s[..|prefix|] == prefix && IsRegexPayload(s[|prefix|..])
    then Some(s[|prefix|..]) else None
  }

  /** The match of `^data:image\/(png|jpeg);base64,(.+)$`: its second group. */
  function MatchSignatureDataUri(signature: string): (r: Option<string>)
    ensures r.Some? ==> IsRegexPayload(r.value)
    ensures r.Some? ==> signature == PNG_DATA_URI_PREFIX + r.value || signature == JPEG_DATA_URI_PREFIX + r.value
  {
    match PayloadAfter(signature, PNG_DATA_URI_PREFIX)
    case Some(payload) => Some(payload)
    case None => PayloadAfter(signature, JPEG_DATA_URI_PREFIX)
  }

  /** Every PNG or JPEG data URI with a payload is matched, and the match
      gives back the payload; with the ensures of MatchSignatureDataUri, a
      signature matches exactly when it is such a URI. */
  lemma MatchSignatureDataUriComplete(payload: string)
    requires IsRegexPayload(payload)
    ensures MatchSignatureDataUri(PNG_DATA_URI_PREFIX + payload) == Some(payload)
    ensures MatchSignatureDataUri(JPEG_DATA_URI_PREFIX + payload) == Some(payload)
  {
    var png := PNG_DATA_URI_PREFIX + payload;
    assert png[..|PNG_DATA_URI_PREFIX|] == PNG_DATA_URI_PREFIX;
    assert png[|PNG_DATA_URI_PREFIX|..] == payload;
    var jpeg := JPEG_DATA_URI_PREFIX + payload;
    assert jpeg[11] == 'j' != PNG_DATA_URI_PREFIX[11];
    assert jpeg[..|JPEG_DATA_URI_PREFIX|] == JPEG_DATA_URI_PREFIX;
    assert jpeg[|JPEG_DATA_URI_PREFIX|..] == payload;
  }

  /** An element of a Uint8Array. */
  newtype byte = x: int | 0 <= x < 256

  /** The Uint8Array element a character code is stored as: the code
      modulo 256. */
  function ByteOf(c: char): byte
  {
    ((c as int) % 256) as byte
  }

  /** The bytes the copy loop produces from a decoded string. */
  function BytesOf(s: string): seq<byte>
  {
    seq(|s|, i requires 0 <= i < |s| => ByteOf(s[i]))
  }

  /** A decoded base64 string has only codes below 256, and for it the copy
      keeps every code as it is and the length too. */
  lemma BytesOfBinaryString(s: string)
    requires forall i :: 0 <= i < |s| ==> s[i] as int < 256
    ensures |BytesOf(s)| == |s|
    ensures forall i :: 0 <= i < |s| ==> BytesOf(s)[i] as int == s[i] as int
  {
  }

  /** The byte-copy loop into a new Uint8Array of the string's length. */
  method CopyToBytes(binaryString: string) returns (sigBytes: array<byte>)
    ensures fresh(sigBytes)
    ensures sigBytes[..] == BytesOf(binaryString)
  {
    sigBytes := new byte[|binaryString|];
    for i := 0 to |binaryString|
      invariant forall j :: 0 <= j < i ==> sigBytes[j] == ByteOf(binaryString[j])
    {
      sigBytes[i] := ByteOf(binaryString[i]);
    }
  }

  type PositiveReal = x: real | x > 0.0 witness 1.0

  /** The natural size of an embedded image. */
  datatype ImageSize = ImageSize(width: PositiveReal, height: PositiveReal)

  const SIGNATURE_MAX_WIDTH: real := 60.0
  const SIGNATURE_MAX_HEIGHT: real := 15.0

  function Min(a: real, b: real): real
  {
    if a <= b then a else b
  }

  /** The scale that fits an image in the signature area. */
  function FitScale(size: ImageSize): (scale: real)
    ensures scale > 0.0
  {
    Min(SIGNATURE_MAX_WIDTH / size.width, SIGNATURE_MAX_HEIGHT / size.height)
  }

  /** A scaled signature fits in 60 by 15, keeps the image's aspect ratio,
      and touches at least one of the two bounds. */
  lemma FitScaleBounds(size: ImageSize)
    ensures size.width * FitScale(size) <= SIGNATURE_MAX_WIDTH
    ensures size.height * FitScale(size) <= SIGNATURE_MAX_HEIGHT
    ensures (size.width * FitScale(size)) / (size.height * FitScale(size)) == size.width / size.height
    ensures size.width * FitScale(size) == SIGNATURE_MAX_WIDTH || size.height * FitScale(size) == SIGNATURE_MAX_HEIGHT
  {
    var w, h, s := size.width, size.height, FitScale(size);
    assert w * (SIGNATURE_MAX_WIDTH / w) == SIGNATURE_MAX_WIDTH;
    assert h * (SIGNATURE_MAX_HEIGHT / h) == SIGNATURE_MAX_HEIGHT;
    if s == SIGNATURE_MAX_WIDTH / w {
      assert s <= SIGNATURE_MAX_HEIGHT / h;
      assert h * s <= h * (SIGNATURE_MAX_HEIGHT / h);
    } else {
      assert s <= SIGNATURE_MAX_WIDTH / w;
      assert w * s <= w * (SIGNATURE_MAX_WIDTH / w);
    }
    assert (w * s) / (h * s) == w / h;
  }

  /** What a signature box shows besides its labels. */
  datatype SignatureMark = NoMark | SignedFallback | SignatureImage(width: real, height: real)

  /** Base64 decoding (None when it throws). */
  type Base64Decoder = string -> Option<string>

  /** PNG embedding (None when it throws). */
  type PngEmbedder = seq<byte> -> Option<ImageSize>

  /** What one signature box shows: nothing for an empty signature or one
      that is not a PNG or JPEG data URI; otherwise the scaled image, or
      "[Signed]" when decoding or embedding throws. */
  function SignatureMarkFor(signature: string, atob: Base64Decoder, embedPng: PngEmbedder): (r: SignatureMark)
    ensures signature == "" ==> r == NoMark
    ensures r != NoMark ==> MatchSignatureDataUri(signature).Some?
  {
    if signature == "" then NoMark
    else match MatchSignatureDataUri(signature)
      case None => NoMark
      case Some(base64Data) =>
        match atob(base64Data)
        case None => SignedFallback
        case Some(binaryString) =>
          match embedPng(BytesOf(binaryString))
          case None => SignedFallback
          case Some(size) => SignatureImage(size.width * FitScale(size), size.height * FitScale(size))
  }

  /** An image is drawn only for a matching data URI and always within 60 by
      15; a signature that is not a PNG or JPEG data URI with a payload
      draws nothing, not even the fallback; "[Signed]" is drawn exactly when
      the URI matched but decoding or embedding failed. */
  lemma SignatureMarkCases(signature: string, atob: Base64Decoder, embedPng: PngEmbedder)
    ensures MatchSignatureDataUri(signature).None? ==> SignatureMarkFor(signature, atob, embedPng) == NoMark
    ensures SignatureMarkFor(signature, atob, embedPng).SignatureImage? ==>
              && MatchSignatureDataUri(signature).Some?
              && 0.0 < SignatureMarkFor(signature, atob, embedPng).width <= SIGNATURE_MAX_WIDTH
              && 0.0 < SignatureMarkFor(signature, atob, embedPng).height <= SIGNATURE_MAX_HEIGHT
    ensures SignatureMarkFor(signature, atob, embedPng) == SignedFallback <==>
              && MatchSignatureDataUri(signature).Some?
              && (|| atob(MatchSignatureDataUri(signature).value).None?
                  || embedPng(BytesOf(atob(MatchSignatureDataUri(signature).value).value)).None?)
  {
    match MatchSignatureDataUri(signature)
    case None =>
    case Some(base64Data) =>
      match atob(base64Data)
      case None =>
      case Some(binaryString) =>
        match embedPng(BytesOf(binaryString))
        case None =>
        case Some(size) => FitScaleBounds(size);
  }

  /** The signature part of one box: match, decode, copy, embed, scale; a
      throw from decoding or embedding draws the fallback instead. */
  method DrawSignature(signature: string, atob: Base64Decoder, embedPng: PngEmbedder) returns (mark: SignatureMark)
    ensures mark == SignatureMarkFor(signature, atob, embedPng)
  {
    mark := NoMark;
    if signature != "" {
      var base64Match := MatchSignatureDataUri(signature);
      if base64Match.Some? {
        var binaryString := atob(base64Match.value);
        if binaryString.None? {
          mark := SignedFallback;
        } else {
          var sigBytes := CopyToBytes(binaryString.value);
          var sigImage := embedPng(sigBytes[..]);
          if sigImage.None? {
            mark := SignedFallback;
          } else {
            var sigDims := sigImage.value;
            var scale := Min(SIGNATURE_MAX_WIDTH / sigDims.width, SIGNATURE_MAX_HEIGHT / sigDims.height);
            mark := SignatureImage(sigDims.width * scale, sigDims.height * scale);
          }
        }
      }
    }
  }

  /** A box of the signatures grid: its heading, the date (empty when not
      drawn) and the signature mark. */
  datatype SignatureCell = SignatureCell(heading: string, date: string, mark: SignatureMark)

  function SignatureCellFor(months: map<Month, MonthInspection>, k: nat, atob: Base64Decoder, embedPng: PngEmbedder): SignatureCell
    requires Complete(months) && k < |MONTHS|
  {
    var monthData := months[MONTHS[k]];
    SignatureCell(Key(MONTHS[k]) + " INSPECTION", FormatDateForPDF(monthData.date),
                  SignatureMarkFor(monthData.signature, atob, embedPng))
  }

  /** The twelve signature boxes in month order. */
  function SignatureCells(months: map<Month, MonthInspection>, atob: Base64Decoder, embedPng: PngEmbedder): seq<SignatureCell>
    requires Complete(months)
  {
    seq(|MONTHS|, k requires 0 <= k < |MONTHS| => SignatureCellFor(months, k, atob, embedPng))
  }

  /** The signatures grid, row by row and column by column. */
  method DrawSignatureGrid(months: map<Month, MonthInspection>, atob: Base64Decoder, embedPng: PngEmbedder)
    returns (cells: seq<SignatureCell>)
    requires Complete(months)
    ensures cells == SignatureCells(months, atob, embedPng)
  {
    cells := [];
    for row := 0 to 3
      invariant |cells| == row * 4
      invariant cells == SignatureCells(months, atob, embedPng)[..|cells|]
    {
      for col := 0 to 4
        invariant |cells| == row * 4 + col
        invariant cells == SignatureCells(months, atob, embedPng)[..|cells|]
      {
        var monthIndex := GridIndex(row, col);
        if monthIndex < |MONTHS| {
          var month := MONTHS[monthIndex];
          var monthData := months[month];
          var mark := DrawSignature(monthData.signature, atob, embedPng);
          var cell := SignatureCell(Key(month) + " INSPECTION", FormatDateForPDF(monthData.date), mark);
          assert cell == SignatureCells(months, atob, embedPng)[monthIndex];
          PrefixStep(SignatureCells(months, atob, embedPng), monthIndex);
          cells := cells + [cell];
        }
      }
    }
    assert SignatureCells(months, atob, embedPng)[..|MONTHS|] == SignatureCells(months, atob, embedPng);
  }

  // ---------------------------------------------------------------------
  // The page

  /** What page 1 shows that depends on the form data. */
  datatype Page1 = Page1(
    itemTexts: seq<string>,
    marks: seq<CellMark>,
    dateCells: seq<DateCell>,
    signatureCells: seq<SignatureCell>)

  /** drawPage1, restricted to its decisions. */
  method DrawPage1(formData: InspectionFormData, width: Measure, atob: Base64Decoder, embedPng: PngEmbedder)
    returns (page: Page1)
    requires Complete(formData.months)
    ensures page.itemTexts == RowTexts(INSPECTION_ITEMS, width)
    ensures page.marks == TableMarks(formData.months, ITEM_COUNT)
    ensures page.dateCells == DateCells(formData.months)
    ensures page.signatureCells == SignatureCells(formData.months, atob, embedPng)
  {
    assert |INSPECTION_ITEMS| == ITEM_COUNT;
    var texts, marks := DrawItemRows(INSPECTION_ITEMS, formData.months, width);
    var dateCells := DrawDateGrid(formData.months);
    var signatureCells := DrawSignatureGrid(formData.months, atob, embedPng);
    page := Page1(texts, marks, dateCells, signatureCells);
  }
}
