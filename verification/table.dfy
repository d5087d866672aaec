/**
 The ranking table written to the console: a header row, a divider and
 one row per ranked record. Every cell is padded on the left to a fixed
 width and followed by a `|` separator. `console.log` formats its
 arguments with Node's `util.format`, which reads the first one as a
 format string; when that holds no `%`, the pieces of the line are
 simply separated by single spaces, and that is the line modelled here.
 */
module Table {
  import Text
  import Decimal
  import R = Ranking

  const UserWidth: nat := 20
  const ScoreWidth: nat := 6
  const CommentsWidth: nat := 10
  const BytesWidth: nat := 8

  /** The line printed for the eight pieces `a, '|', b, '|', c, '|', d, '|'`
      when `a` holds no `%`. */
  function Line(a: string, b: string, c: string, d: string): string {
    a + " | " + b + " | " + c + " | " + d + " |"
  }

  function Header(): string {
    Line(Text.PadStart("user", UserWidth), Text.PadStart("score", ScoreWidth),
         Text.PadStart("comments", CommentsWidth), Text.PadStart("bytes", BytesWidth))
  }

  const Divider: string := "---------------------------------------"

  function Row(e: R.Entry): string {
    Line(Text.PadStart(e.user, UserWidth),
         Text.PadStart(Decimal.Render(e.score), ScoreWidth),
         Text.PadStart(Decimal.Render(e.comments), CommentsWidth),
         Text.PadStart(Decimal.Render(e.commentBytes), BytesWidth))
  }

  /** Everything printed for a ranking, line by line. */
  function Report(ranked: seq<R.Entry>): seq<string> {
    [Header(), Divider] + seq(|ranked|, i requires 0 <= i < |ranked| => Row(ranked[i]))
  }

  /** Columns of the fixed-width layout: where each cell starts. */
  const ScoreStart: nat := UserWidth + 3
  const CommentsStart: nat := ScoreStart + ScoreWidth + 3
  const BytesStart: nat := CommentsStart + CommentsWidth + 3
  const LineWidth: nat := BytesStart + BytesWidth + 2

  /** Cells of exactly the column widths make a line of the fixed
      layout: 55 characters, each cell at its column, a separator after
      each cell. */
  lemma LineLayout(a: string, b: string, c: string, d: string)
    requires '%' !in a
    requires |a| == UserWidth && |b| == ScoreWidth && |c| == CommentsWidth && |d| == BytesWidth
    ensures |Line(a, b, c, d)| == LineWidth
    ensures Line(a, b, c, d)[..UserWidth] == a
    ensures Line(a, b, c, d)[ScoreStart..ScoreStart + ScoreWidth] == b
    ensures Line(a, b, c, d)[CommentsStart..CommentsStart + CommentsWidth] == c
    ensures Line(a, b, c, d)[BytesStart..BytesStart + BytesWidth] == d
    ensures Separated(Line(a, b, c, d))
  {
    var l := Line(a, b, c, d);
    var p1 := a + " | ";
    var p2 := p1 + b + " | ";
    var p3 := p2 + c + " | ";
    assert l == p3 + d + " |";
    assert l[..|p3|] == p3 && p3[..|p2|] == p2 && p2[..|p1|] == p1;
    assert l[BytesStart..BytesStart + BytesWidth] == d;
    assert p3[CommentsStart..CommentsStart + CommentsWidth] == c;
    assert p2[ScoreStart..ScoreStart + ScoreWidth] == b;
  }

  /** The four separators stand where the header has them. */
  ghost predicate Separated(l: string) {
    && |l| == LineWidth
    && l[UserWidth + 1] == '|' && l[ScoreStart + ScoreWidth + 1] == '|'
    && l[CommentsStart + CommentsWidth + 1] == '|' && l[LineWidth - 1] == '|'
  }

  /** The header keeps the fixed layout. */
  lemma HeaderLayout()
    ensures Separated(Header())
  {
    LineLayout(Text.PadStart("user", UserWidth), Text.PadStart("score", ScoreWidth),
               Text.PadStart("comments", CommentsWidth), Text.PadStart("bytes", BytesWidth));
  }

  /** A record whose fields fit their widths prints as a row aligned
      with the header, and each cell reads back, after its padding is
      dropped, as the field it shows. */
  lemma RowLayout(e: R.Entry)
    requires '%' !in e.user
    requires |e.user| <= UserWidth
    requires e.score < Decimal.Pow10(ScoreWidth)
    requires e.comments < Decimal.Pow10(CommentsWidth)
    requires e.commentBytes < Decimal.Pow10(BytesWidth)
    ensures Separated(Row(e))
    ensures Row(e)[UserWidth - |e.user|..UserWidth] == e.user
    ensures Decimal.Denotes(Text.TrimStart(Row(e)[ScoreStart..ScoreStart + ScoreWidth]), e.score)
    ensures Decimal.Denotes(Text.TrimStart(Row(e)[CommentsStart..CommentsStart + CommentsWidth]), e.comments)
    ensures Decimal.Denotes(Text.TrimStart(Row(e)[BytesStart..BytesStart + BytesWidth]), e.commentBytes)
  {
    var s := NumberCell(e.score, ScoreWidth);
    var c := NumberCell(e.comments, CommentsWidth);
    var b := NumberCell(e.commentBytes, BytesWidth);
    RowOfCells(e, Text.PadStart(e.user, UserWidth), s, c, b);
  }

  lemma RowOfCells(e: R.Entry, u: string, s: string, c: string, b: string)
    requires '%' !in e.user
    requires |e.user| <= UserWidth && u == Text.PadStart(e.user, UserWidth)
    requires s == Text.PadStart(Decimal.Render(e.score), ScoreWidth) && |s| == ScoreWidth
    requires c == Text.PadStart(Decimal.Render(e.comments), CommentsWidth) && |c| == CommentsWidth
    requires b == Text.PadStart(Decimal.Render(e.commentBytes), BytesWidth) && |b| == BytesWidth
    ensures Row(e) == Line(u, s, c, b)
    ensures Separated(Row(e))
    ensures Row(e)[UserWidth - |e.user|..UserWidth] == e.user
    ensures Row(e)[ScoreStart..ScoreStart + ScoreWidth] == s
    ensures Row(e)[CommentsStart..CommentsStart + CommentsWidth] == c
    ensures Row(e)[BytesStart..BytesStart + BytesWidth] == b
  {
    assert u[UserWidth - |e.user|..] == e.user;
    LineLayout(u, s, c, b);
    assert Row(e)[..UserWidth] == u;
  }

  /** A number that fits a column fills it exactly and reads back. */
  lemma NumberCell(n: nat, width: nat) returns (cell: string)
    requires width >= 1
    requires n < Decimal.Pow10(width)
    ensures cell == Text.PadStart(Decimal.Render(n), width)
    ensures |cell| == width
    ensures Decimal.Denotes(Text.TrimStart(cell), n)
  {
    Decimal.RenderWidth(n, width);
    CellReadsBack(n, width);
    cell := Text.PadStart(Decimal.Render(n), width);
  }

  /** A padded number cell reads back as the number. */
  lemma CellReadsBack(n: nat, width: nat)
    ensures Decimal.Denotes(Text.TrimStart(Text.PadStart(Decimal.Render(n), width)), n)
  {
    Text.TrimPadStart(Decimal.Render(n), width);
    Decimal.ParseRender(n);
  }

  /** A record whose user and numbers fit their columns, and whose user
      holds no `%` for `console.log` to read as a format directive. */
  predicate Fits(e: R.Entry) {
    && '%' !in e.user
    && |e.user| <= UserWidth
    && e.score < Decimal.Pow10(ScoreWidth)
    && e.comments < Decimal.Pow10(CommentsWidth)
    && e.commentBytes < Decimal.Pow10(BytesWidth)
  }

  /** The printed table is the header, the divider, then one line per
      ranked record in ranking order; the header and every record that
      fits its columns keep the fixed layout, and each such line shows
      its record's user and reads back as its record's numbers. */
  lemma ReportLayout(ranked: seq<R.Entry>)
    ensures |Report(ranked)| == |ranked| + 2
    ensures Report(ranked)[0] == Header() && Separated(Report(ranked)[0])
    ensures Report(ranked)[1] == Divider
    ensures forall i :: 0 <= i < |ranked| ==> Report(ranked)[i + 2] == Row(ranked[i])
    ensures forall i :: 0 <= i < |ranked| && Fits(ranked[i]) ==> ShowsRecord(Report(ranked)[i + 2], ranked[i])
  {
    HeaderLayout();
    forall i | 0 <= i < |ranked| ensures Report(ranked)[i + 2] == Row(ranked[i]) {
      ReportLine(ranked, i);
    }
    forall i | 0 <= i < |ranked| && Fits(ranked[i])
      ensures ShowsRecord(Report(ranked)[i + 2], ranked[i])
    {
      ReportLine(ranked, i);
      RowShows(ranked[i]);
    }
  }

  /** Line `i + 2` of the report is the row of the `i`-th record. */
  lemma ReportLine(ranked: seq<R.Entry>, i: nat)
    requires i < |ranked|
    ensures Report(ranked)[i + 2] == Row(ranked[i])
  {
  }

  /** The row of a record that fits its columns shows that record. */
  lemma RowShows(e: R.Entry)
    requires Fits(e)
    ensures ShowsRecord(Row(e), e)
  {
    RowLayout(e);
  }

  /** Line `l` is laid out like the header and shows record `e`: its user
      right-aligned in the first cell and its numbers in the others. */
  ghost predicate ShowsRecord(l: string, e: R.Entry) {
    && Separated(l)
    && |e.user| <= UserWidth
    && l[UserWidth - |e.user|..UserWidth] == e.user
    && Decimal.Denotes(Text.TrimStart(l[ScoreStart..ScoreStart + ScoreWidth]), e.score)
    && Decimal.Denotes(Text.TrimStart(l[CommentsStart..CommentsStart + CommentsWidth]), e.comments)
    && Decimal.Denotes(Text.TrimStart(l[BytesStart..BytesStart + BytesWidth]), e.commentBytes)
  }
}
