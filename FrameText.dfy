/**
 * The descriptor text dumps of Frame (Frame::saveDescriptors and
 * Frame::saveMultiScaleDescriptor), modelled as the character sequence the
 * fprintf calls append to the file. The float-formatted keypoint fields
 * ("%.7e", "%f") are inputs: each record receives its already formatted
 * header text.
 */
module FrameText {
  import opened Arith

  // Concatenation of text lines, one line appended at a time.

  function Concat(ls: seq<string>): (t: string)
    decreases |ls|
  {
    if |ls| == 0 then [] else Concat(ls[..|ls| - 1]) + ls[|ls| - 1]
  }

  lemma ConcatStep(ls: seq<string>, k: int)
    requires 0 <= k < |ls|
    ensures Concat(ls[..k + 1]) == Concat(ls[..k]) + ls[k]
  {
    assert ls[..k + 1][..k] == ls[..k];
  }

  /** The number of newline characters in t. */
  function Newlines(t: string): (n: nat)
    ensures n <= |t|
    decreases |t|
  {
    if |t| == 0 then 0 else Newlines(t[..|t| - 1]) + (if t[|t| - 1] == '\n' then 1 else 0)
  }

  lemma {:induction false} NewlinesAppend(a: string, b: string)
    ensures Newlines(a + b) == Newlines(a) + Newlines(b)
    decreases |b|
  {
    if |b| > 0 {
      var b' := b[..|b| - 1];
      assert (a + b)[..|a + b| - 1] == a + b';
      assert (a + b)[|a + b| - 1] == b[|b| - 1];
      NewlinesAppend(a, b');
    } else {
      assert a + b == a;
    }
  }

  /** A line whose only newline is its last character. */
  predicate OneLine(t: string) {
    |t| > 0 && t[|t| - 1] == '\n' && forall p :: 0 <= p < |t| - 1 ==> t[p] != '\n'
  }

  lemma {:induction false} NoNewlines(t: string)
    requires forall p :: 0 <= p < |t| ==> t[p] != '\n'
    ensures Newlines(t) == 0
    decreases |t|
  {
    if |t| > 0 {
      NoNewlines(t[..|t| - 1]);
    }
  }

  lemma OneLineCount(t: string)
    requires OneLine(t)
    ensures Newlines(t) == 1
  {
    NoNewlines(t[..|t| - 1]);
  }

  /** The text of lines that are each one line has one newline per line. */
  lemma {:induction false} ConcatNewlines(ls: seq<string>)
    requires forall k :: 0 <= k < |ls| ==> OneLine(ls[k])
    ensures Newlines(Concat(ls)) == |ls|
    decreases |ls|
  {
    if |ls| > 0 {
      ConcatNewlines(ls[..|ls| - 1]);
      NewlinesAppend(Concat(ls[..|ls| - 1]), ls[|ls| - 1]);
      OneLineCount(ls[|ls| - 1]);
    }
  }

  // The bit characters of one byte.

  function Pow2(m: nat): (p: nat)
    ensures p >= 1
  {
    if m == 0 then 1 else 2 * Pow2(m - 1)
  }

  function BitChar(b: int): char {
    if b == 1 then '1' else '0'
  }

  predicate IsBitChar(ch: char) {
    ch == '0' || ch == '1'
  }

  /** std::bitset<m>(x).to_string(): the low m bits of x, most significant first. */
  function Binary(x: int, m: nat): (b: string)
    ensures |b| == m
    decreases m
  {
    if m == 0 then [] else Binary(x / 2, m - 1) + [BitChar(x % 2)]
  }

  /** The low m bits of x, least significant first, each followed by a space. */
  function LsbFirst(x: int, m: nat): (t: string)
    ensures |t| == 2 * m
    decreases m
  {
    if m == 0 then [] else [BitChar(x % 2), ' '] + LsbFirst(x / 2, m - 1)
  }

  /** The characters of b from last to first, each followed by a space. */
  function ReadBackwards(b: string): (t: string)
    ensures |t| == 2 * |b|
    decreases |b|
  {
    if |b| == 0 then [] else ReadBackwards(b[1..]) + [b[0], ' ']
  }

  /** Reading from index j to the end: the pair for b[j] comes after the pairs for b[j + 1..]. */
  lemma ReadBackwardsStep(b: string, j: int)
    requires 0 <= j < |b|
    ensures ReadBackwards(b[j..]) == ReadBackwards(b[j + 1..]) + [b[j], ' ']
  {
    assert b[j..][1..] == b[j + 1..];
  }

  lemma {:induction false} ReadBackwardsSnoc(b: string, c: char)
    ensures ReadBackwards(b + [c]) == [c, ' '] + ReadBackwards(b)
    decreases |b|
  {
    if |b| > 0 {
      assert (b + [c])[1..] == b[1..] + [c];
      ReadBackwardsSnoc(b[1..], c);
    } else {
      assert (b + [c])[1..] == [];
    }
  }

  /** Reading the bitset string from its end visits the bits least significant first. */
  lemma {:induction false} BinaryReadBackwards(x: int, m: nat)
    ensures ReadBackwards(Binary(x, m)) == LsbFirst(x, m)
    decreases m
  {
    if m > 0 {
      BinaryReadBackwards(x / 2, m - 1);
      ReadBackwardsSnoc(Binary(x / 2, m - 1), BitChar(x % 2));
    }
  }

  /**
   * The sixteen characters written for descriptor value v: std::bitset<8>
   * keeps v modulo 256 (two's complement for a negative int).
   */
  function ByteText(v: int): (t: string)
    ensures |t| == 16
  {
    LsbFirst(v % 256, 8)
  }

  /** Reads back bit characters least significant first, skipping the separators. */
  function ParseLsb(t: string): int
    decreases |t|
  {
    if |t| < 2 then 0 else (if t[0] == '1' then 1 else 0) + 2 * ParseLsb(t[2..])
  }

  lemma {:induction false} LsbRoundTrip(x: int, m: nat)
    requires 0 <= x < Pow2(m)
    ensures ParseLsb(LsbFirst(x, m)) == x
    decreases m
  {
    if m > 0 {
      LsbRoundTrip(x / 2, m - 1);
      assert LsbFirst(x, m)[2..] == LsbFirst(x / 2, m - 1);
    }
  }

  /** Decoding the sixteen characters of a byte gives back its low eight bits. */
  lemma ByteTextRoundTrip(v: int)
    ensures ParseLsb(ByteText(v)) == v % 256
  {
    assert Pow2(8) == 256;
    LsbRoundTrip(v % 256, 8);
  }

  /** Even positions carry bit characters, odd positions the separating space. */
  predicate BitLayout(t: string) {
    forall p :: 0 <= p < |t| ==> (if p % 2 == 0 then IsBitChar(t[p]) else t[p] == ' ')
  }

  lemma {:induction false} LsbLayout(x: int, m: nat)
    ensures BitLayout(LsbFirst(x, m))
    decreases m
  {
    if m > 0 {
      LsbLayout(x / 2, m - 1);
      var t := LsbFirst(x, m);
      forall p | 2 <= p < |t| ensures t[p] == LsbFirst(x / 2, m - 1)[p - 2] { }
    }
  }

  /** The eight fprintf calls for one byte: binary[7] down to binary[0], each followed by a space. */
  method EmitByte(v: int) returns (t: string)
    ensures t == ByteText(v)
  {
    var binary := Binary(v % 256, 8);
    t := [];
    ReadBackwardsStep(binary, 7);
    t := t + [binary[7], ' '];
    ReadBackwardsStep(binary, 6);
    t := t + [binary[6], ' '];
    ReadBackwardsStep(binary, 5);
    t := t + [binary[5], ' '];
    ReadBackwardsStep(binary, 4);
    t := t + [binary[4], ' '];
    ReadBackwardsStep(binary, 3);
    t := t + [binary[3], ' '];
    ReadBackwardsStep(binary, 2);
    t := t + [binary[2], ' '];
    ReadBackwardsStep(binary, 1);
    t := t + [binary[1], ' '];
    ReadBackwardsStep(binary, 0);
    t := t + [binary[0], ' '];
    assert binary[0..] == binary && binary[8..] == [];
    BinaryReadBackwards(v % 256, 8);
  }

  // One descriptor line of saveDescriptors.

  function ByteTexts(row: seq<int>): (ts: seq<string>)
    ensures |ts| == |row|
  {
    seq(|row|, s requires 0 <= s < |row| => ByteText(row[s]))
  }

  /** The bit characters of a descriptor row (without the final newline). */
  function RowText(row: seq<int>): string {
    Concat(ByteTexts(row))
  }

  /** Every descriptor value modulo 256. */
  function Low8(row: seq<int>): (r: seq<int>)
    ensures |r| == |row|
  {
    seq(|row|, s requires 0 <= s < |row| => row[s] % 256)
  }

  /** Reads back a row text sixteen characters per value. */
  function ParseRow(t: string): seq<int>
    decreases |t|
  {
    if |t| < 16 then [] else ParseRow(t[..|t| - 16]) + [ParseLsb(t[|t| - 16..])]
  }

  /** The row text grows by the sixteen characters of each value. */
  lemma RowTextSnoc(row: seq<int>)
    requires |row| > 0
    ensures RowText(row) == RowText(row[..|row| - 1]) + ByteText(row[|row| - 1])
  {
    assert ByteTexts(row)[..|row| - 1] == ByteTexts(row[..|row| - 1]);
  }

  lemma {:induction false} RowTextLength(row: seq<int>)
    ensures |RowText(row)| == 16 * |row|
    decreases |row|
  {
    if |row| > 0 {
      RowTextSnoc(row);
      RowTextLength(row[..|row| - 1]);
    }
  }

  lemma ParseRowSnoc(a: string, b: string)
    requires |b| == 16
    ensures ParseRow(a + b) == ParseRow(a) + [ParseLsb(b)]
  {
    var t := a + b;
    assert t[..|t| - 16] == a && t[|t| - 16..] == b;
  }

  lemma Low8Snoc(row: seq<int>)
    requires |row| > 0
    ensures Low8(row) == Low8(row[..|row| - 1]) + [row[|row| - 1] % 256]
  { }

  /** The row text decodes to the low eight bits of every value of the row. */
  lemma {:induction false} RowRoundTrip(row: seq<int>)
    ensures ParseRow(RowText(row)) == Low8(row)
    decreases |row|
  {
    if |row| > 0 {
      var init, last := row[..|row| - 1], row[|row| - 1];
      RowTextSnoc(row);
      ParseRowSnoc(RowText(init), ByteText(last));
      RowRoundTrip(init);
      ByteTextRoundTrip(last);
      Low8Snoc(row);
    }
  }

  /** Two texts with the layout, the first of even length, keep it when joined. */
  lemma LayoutAppend(a: string, b: string)
    requires BitLayout(a) && BitLayout(b) && |a| % 2 == 0
    ensures BitLayout(a + b)
  {
    forall p | |a| <= p < |a| + |b| ensures (a + b)[p] == b[p - |a|] && p % 2 == (p - |a|) % 2 {
      var q := p - |a|;
      DivModUnique(p, 2, |a| / 2 + q / 2, q % 2);
    }
  }

  /** The row text alternates bit characters and spaces. */
  lemma {:induction false} RowLayout(row: seq<int>)
    ensures BitLayout(RowText(row))
    decreases |row|
  {
    if |row| > 0 {
      var init := row[..|row| - 1];
      RowTextSnoc(row);
      RowLayout(init);
      RowTextLength(init);
      DivModUnique(16 * |init|, 2, 8 * |init|, 0);
      LsbLayout(row[|row| - 1] % 256, 8);
      LayoutAppend(RowText(init), ByteText(row[|row| - 1]));
    }
  }

  method EmitRow(row: seq<int>) returns (t: string)
    ensures t == RowText(row)
  {
    t := [];
    for s := 0 to |row|
      invariant t == Concat(ByteTexts(row)[..s])
    {
      var bits := EmitByte(row[s]);
      ConcatStep(ByteTexts(row), s);
      t := t + bits;
    }
    assert ByteTexts(row)[..|row|] == ByteTexts(row);
  }

  // saveDescriptors.

  /** The two lines of keypoint n: its header, then its descriptor bits. */
  function Record(header: string, row: seq<int>): string {
    header + "\n" + RowText(row) + "\n"
  }

  function Records(headers: seq<string>, desc: seq<seq<int>>): (rs: seq<string>)
    requires |desc| <= |headers|
    ensures |rs| == |desc|
  {
    seq(|desc|, n requires 0 <= n < |desc| => Record(headers[n], desc[n]))
  }

  /** The file written by saveDescriptors for the formatted headers and the descriptor rows. */
  function DescriptorsFile(headers: seq<string>, desc: seq<seq<int>>): string
    requires |desc| <= |headers|
  {
    Concat(Records(headers, desc))
  }

  method SaveDescriptors(headers: seq<string>, desc: seq<seq<int>>) returns (out: string)
    requires |desc| <= |headers|
    ensures out == DescriptorsFile(headers, desc)
  {
    out := [];
    for n := 0 to |desc|
      invariant out == Concat(Records(headers, desc)[..n])
    {
      ConcatStep(Records(headers, desc), n);
      out := out + headers[n] + "\n";
      var bits := EmitRow(desc[n]);
      out := out + bits;
      out := out + "\n";
    }
    assert Records(headers, desc)[..|desc|] == Records(headers, desc);
  }

  /** The record of one keypoint is its header, a newline, 16 characters per value and a newline. */
  lemma RecordShape(header: string, row: seq<int>)
    ensures var r := Record(header, row);
      |r| == |header| + 16 * |row| + 2
      && r[..|header|] == header
      && r[|header|] == '\n'
      && r[|header| + 1..|r| - 1] == RowText(row)
      && r[|r| - 1] == '\n'
  {
    RowTextLength(row);
    var r := Record(header, row);
    assert r == header + "\n" + RowText(row) + "\n";
    assert r[|header| + 1..|r| - 1] == RowText(row);
  }

  /** A record decodes back to the low eight bits of the descriptor row. */
  lemma RecordRoundTrip(header: string, row: seq<int>)
    ensures var r := Record(header, row);
      |r| >= |header| + 2 && ParseRow(r[|header| + 1..|r| - 1]) == Low8(row)
  {
    RecordShape(header, row);
    RowRoundTrip(row);
  }

  /** Headers without newlines give two lines per keypoint. */
  lemma DescriptorsFileLines(headers: seq<string>, desc: seq<seq<int>>)
    requires |desc| <= |headers|
    requires forall n :: 0 <= n < |desc| ==> forall p :: 0 <= p < |headers[n]| ==> headers[n][p] != '\n'
    ensures Newlines(DescriptorsFile(headers, desc)) == 2 * |desc|
  {
    var rs := Records(headers, desc);
    forall n | 0 <= n < |desc| ensures Newlines(rs[n]) == 2 {
      var h := headers[n];
      RowLayout(desc[n]);
      assert rs[n] == (h + "\n") + (RowText(desc[n]) + "\n");
      NewlinesAppend(h + "\n", RowText(desc[n]) + "\n");
      assert OneLine(h + "\n");
      assert OneLine(RowText(desc[n]) + "\n");
      OneLineCount(h + "\n");
      OneLineCount(RowText(desc[n]) + "\n");
    }
    RecordsNewlines(rs);
  }

  lemma {:induction false} RecordsNewlines(ls: seq<string>)
    requires forall k :: 0 <= k < |ls| ==> Newlines(ls[k]) == 2
    ensures Newlines(Concat(ls)) == 2 * |ls|
    decreases |ls|
  {
    if |ls| > 0 {
      RecordsNewlines(ls[..|ls| - 1]);
      NewlinesAppend(Concat(ls[..|ls| - 1]), ls[|ls| - 1]);
    }
  }

  // saveMultiScaleDescriptor.

  type Byte = x: int | 0 <= x < 256

  function DigitChar(d: int): char
    requires 0 <= d < 10
  {
    (48 + d) as char
  }

  /** printf's "%d" / "%u" of a non-negative integer. */
  function Decimal(n: nat): (t: string)
    ensures |t| > 0
  {
    if n < 10 then [DigitChar(n)] else Decimal(n / 10) + [DigitChar(n % 10)]
  }

  predicate IsDigit(ch: char) {
    '0' <= ch <= '9'
  }

  function ParseDecimal(t: string): int
    decreases |t|
  {
    if |t| == 0 then 0 else 10 * ParseDecimal(t[..|t| - 1]) + (t[|t| - 1] as int - 48)
  }

  lemma {:induction false} DecimalRoundTrip(n: nat)
    ensures ParseDecimal(Decimal(n)) == n
    ensures forall p :: 0 <= p < |Decimal(n)| ==> IsDigit(Decimal(n)[p])
  {
    if n >= 10 {
      DecimalRoundTrip(n / 10);
      var t := Decimal(n);
      assert t[..|t| - 1] == Decimal(n / 10);
    } else {
      assert Decimal(n)[..0] == [];
    }
  }

  /** The values of one dumped row, each as "%u " (only the first 32 columns are written). */
  function ValueTexts(row: seq<Byte>): (ts: seq<string>)
    ensures |ts| == |row|
  {
    seq(|row|, j requires 0 <= j < |row| => Decimal(row[j]) + " ")
  }

  /** The inner loop of saveMultiScaleDescriptor: the first 32 values of a row. */
  method EmitValues(row: seq<Byte>) returns (t: string)
    requires |row| >= 32
    ensures t == Concat(ValueTexts(row[..32]))
  {
    t := [];
    for j := 0 to 32
      invariant t == Concat(ValueTexts(row[..32])[..j])
    {
      ConcatStep(ValueTexts(row[..32]), j);
      t := t + Decimal(row[j]) + " ";
    }
    assert ValueTexts(row[..32])[..32] == ValueTexts(row[..32]);
  }

  /** One row of the multi-scale dump: coordinates, the inner loop over 32 values, the newline. */
  method EmitDumpLine(coord: string, row: seq<Byte>) returns (line: string)
    requires |row| >= 32
    ensures line == DumpLine(coord, row)
  {
    line := coord;
    var values := EmitValues(row);
    line := line + values;
    line := line + "\n";
  }

  /** Line n of the multi-scale dump: the keypoint's coordinates, 32 values and a newline. */
  function DumpLine(coord: string, row: seq<Byte>): string
    requires |row| >= 32
  {
    coord + Concat(ValueTexts(row[..32])) + "\n"
  }

  /** What saveMultiScaleDescriptor needs of its inputs: enough rows, each with 32 columns. */
  predicate DumpInputs(coords: seq<string>, descs: seq<seq<Byte>>, nlevels: int) {
    |coords| * nlevels <= |descs|
    && forall n :: 0 <= n < |coords| * nlevels ==> |descs[n]| >= 32
  }

  /** Row n (of nkeypoints = nkeypointsLevel * nlevels) belongs to keypoint n / nlevels. */
  lemma RowKeypointInRange(n: int, nk: int, nlevels: int)
    requires nk >= 0 && 0 <= n < nk * nlevels
    ensures nlevels > 0 && 0 <= n / nlevels < nk
  {
    if nlevels <= 0 {
      MulSignNonPositive(nk, nlevels);
    }
    if n / nlevels >= nk {
      MulMonotone(nk, n / nlevels, nlevels);
    }
  }

  lemma MulSignNonPositive(a: int, b: int)
    requires a >= 0 && b <= 0
    ensures a * b <= 0
  {
    MulMonotone(b, 0, a + 1);
    assert b * (a + 1) == a * b + b;
  }

  function DumpLines(coords: seq<string>, descs: seq<seq<Byte>>, nlevels: int): (ls: seq<string>)
    requires DumpInputs(coords, descs, nlevels)
    ensures |ls| == if |coords| * nlevels > 0 then |coords| * nlevels else 0
  {
    var count := if |coords| * nlevels > 0 then |coords| * nlevels else 0;
    seq(count, n requires 0 <= n < count =>
      RowKeypointInRange(n, |coords|, nlevels);
      DumpLine(coords[n / nlevels], descs[n]))
  }

  /** The file written by saveMultiScaleDescriptor: "%d \n" with the per-level keypoint count, then the rows. */
  function DumpFile(coords: seq<string>, descs: seq<seq<Byte>>, nlevels: int): string
    requires DumpInputs(coords, descs, nlevels)
  {
    Decimal(|coords|) + " \n" + Concat(DumpLines(coords, descs, nlevels))
  }

  method SaveMultiScaleDescriptor(coords: seq<string>, descs: seq<seq<Byte>>, nlevels: int) returns (out: string)
    requires DumpInputs(coords, descs, nlevels)
    ensures out == DumpFile(coords, descs, nlevels)
  {
    var nkeypointsLevel := |coords|;
    var nkeypoints := nkeypointsLevel * nlevels;
    var header := Decimal(nkeypointsLevel) + " \n";
    out := header;
    ghost var lines := DumpLines(coords, descs, nlevels);
    var n := 0;
    while n < nkeypoints
      invariant 0 <= n && (n <= nkeypoints || n == 0) && n <= |lines|
      invariant out == header + Concat(lines[..n])
    {
      RowKeypointInRange(n, nkeypointsLevel, nlevels);
      var c := n / nlevels;
      var line := EmitDumpLine(coords[c], descs[n]);
      assert line == lines[n];
      ConcatStep(lines, n);
      out := out + line;
      n := n + 1;
    }
    assert lines[..n] == lines;
  }

  /**
   * The rows are keypoint-major: row kp * nlevels + level carries the
   * coordinates of keypoint kp, so each keypoint appears on nlevels
   * consecutive rows, one per scale level.
   */
  lemma DumpLayout(coords: seq<string>, descs: seq<seq<Byte>>, nlevels: int, kp: int, level: int)
    requires DumpInputs(coords, descs, nlevels)
    requires 0 <= kp < |coords| && 0 <= level < nlevels
    ensures 0 <= kp * nlevels + level < |DumpLines(coords, descs, nlevels)|
    ensures DumpLines(coords, descs, nlevels)[kp * nlevels + level]
      == DumpLine(coords[kp], descs[kp * nlevels + level])
  {
    DivModUnique(kp * nlevels + level, nlevels, kp, level);
    MulMonotone(kp + 1, |coords|, nlevels);
  }

  /** Coordinates without newlines give one header line and one line per row. */
  lemma DumpFileLines(coords: seq<string>, descs: seq<seq<Byte>>, nlevels: int)
    requires DumpInputs(coords, descs, nlevels)
    requires forall c :: 0 <= c < |coords| ==> forall p :: 0 <= p < |coords[c]| ==> coords[c][p] != '\n'
    ensures Newlines(DumpFile(coords, descs, nlevels)) == 1 + |DumpLines(coords, descs, nlevels)|
  {
    var ls := DumpLines(coords, descs, nlevels);
    forall n | 0 <= n < |ls| ensures OneLine(ls[n]) {
      RowKeypointInRange(n, |coords|, nlevels);
      var coord, row := coords[n / nlevels], descs[n][..32];
      var body := Concat(ValueTexts(row));
      ValuesHaveNoNewline(row);
      assert ls[n] == coord + body + "\n";
    }
    ConcatNewlines(ls);
    var head := Decimal(|coords|) + " \n";
    DecimalRoundTrip(|coords|);
    assert OneLine(head);
    OneLineCount(head);
    NewlinesAppend(head, Concat(ls));
  }

  lemma {:induction false} ValuesHaveNoNewline(row: seq<Byte>)
    ensures forall p :: 0 <= p < |Concat(ValueTexts(row))| ==> Concat(ValueTexts(row))[p] != '\n'
    decreases |row|
  {
    if |row| > 0 {
      var init := row[..|row| - 1];
      assert ValueTexts(row)[..|row| - 1] == ValueTexts(init);
      ValuesHaveNoNewline(init);
      DecimalRoundTrip(row[|row| - 1]);
    }
  }
}
