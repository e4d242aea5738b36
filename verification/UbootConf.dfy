/**
 * uboot_conf.cpp: the U-Boot environment, a checksummed segment of NUL-terminated rows,
 * converted to text with one line a row and back. Bytes are given as characters, the
 * segment size is a parameter, and crc32 is any function.
 */
module UbootConf {
  import opened Bytes

  const NUL: char := '\0'
  const NL: char := '\n'
  const MAX_ROW: nat := 254
  const UNDEF: string := "X"

  type uint32 = x: int | 0 <= x < 0x1_0000_0000

  type Crc32 = string -> uint32

  datatype Arguments = Arguments(boardId: string, lcdModel: string, tsModel: string)

  const NO_OVERRIDE := Arguments(UNDEF, UNDEF, UNDEF)

  // ----- ApplyFilter -----

  /** The first '=' of a row, or its length. */
  function EqualsAt(row: string): (e: nat)
    ensures e <= |row|
    ensures '=' !in row[..e]
    ensures e < |row| ==> row[e] == '='
  {
    if row == "" || row[0] == '=' then 0
    else
      var e := EqualsAt(row[1..]) + 1;
      assert row[..e] == [row[0]] + row[1..][..e - 1];
      e
  }

  /** What the pattern ([^=]+)=(.*) captures first, if the row matches it. */
  function KeyOf(row: string): Option<string> {
    var e := EqualsAt(row);
    if 0 < e < |row| then Some(row[..e]) else None
  }

  function ApplyFilter(row: string, args: Arguments): string {
    var key := KeyOf(row);
    if key == Some("board_id") && args.boardId != UNDEF then "board_id=" + args.boardId
    else if key == Some("lcd_model") && args.lcdModel != UNDEF then "lcd_model=" + args.lcdModel
    else if key == Some("ts_model") && args.tsModel != UNDEF then "ts_model=" + args.tsModel
    else row
  }

  lemma {:induction false} EqualsAtKey(key: string, value: string)
    requires '=' !in key
    ensures EqualsAt(key + "=" + value) == |key|
    decreases |key|
  {
    var row := key + "=" + value;
    if key != "" {
      EqualsAtKey(key[1..], value);
      assert row[1..] == key[1..] + "=" + value;
    }
  }

  lemma KeyOfPair(key: string, value: string)
    requires '=' !in key && key != ""
    ensures KeyOf(key + "=" + value) == Some(key)
  {
    EqualsAtKey(key, value);
    assert (key + "=" + value)[..|key|] == key;
  }

  /** The override that applies to a key, if any. */
  function OverrideFor(key: Option<string>, args: Arguments): Option<string> {
    if key == Some("board_id") && args.boardId != UNDEF then Some(args.boardId)
    else if key == Some("lcd_model") && args.lcdModel != UNDEF then Some(args.lcdModel)
    else if key == Some("ts_model") && args.tsModel != UNDEF then Some(args.tsModel)
    else None
  }

  /**
   * The filter keeps the key of every row and replaces the value exactly when there is an
   * override for the key; any other row is left as it is. Filtering again does nothing.
   */
  lemma FilterReplacesValue(row: string, args: Arguments)
    ensures
      var value, row' := OverrideFor(KeyOf(row), args), ApplyFilter(row, args);
      && KeyOf(row') == KeyOf(row)
      && ApplyFilter(row', args) == row'
      && row' == if value.Some? then KeyOf(row).value + "=" + value.value else row
  {
    assert "board_id=" == "board_id" + "=" && "lcd_model=" == "lcd_model" + "=" && "ts_model=" == "ts_model" + "=";
    assert '=' !in "board_id" && '=' !in "lcd_model" && '=' !in "ts_model";
    KeyOfPair("board_id", args.boardId);
    KeyOfPair("lcd_model", args.lcdModel);
    KeyOfPair("ts_model", args.tsModel);
  }

  /** By the text of the row alone: a pair, its key without "=" and not empty. */
  lemma FilterPair(key: string, value: string, args: Arguments)
    requires key != "" && '=' !in key
    ensures ApplyFilter(key + "=" + value, args) == key + "=" +
              if key == "board_id" && args.boardId != "X" then args.boardId
              else if key == "lcd_model" && args.lcdModel != "X" then args.lcdModel
              else if key == "ts_model" && args.tsModel != "X" then args.tsModel
              else value
  {
    KeyOfPair(key, value);
    assert "board_id=" == "board_id" + "=" && "lcd_model=" == "lcd_model" + "=" && "ts_model=" == "ts_model" + "=";
  }

  /** A row without "=", or with nothing before it, stays as it is. */
  lemma FilterOther(row: string, args: Arguments)
    requires '=' !in row || row[0] == '='
    ensures ApplyFilter(row, args) == row
  {
  }

  // ----- BinToText -----

  /** Complete rows, what follows the last of them, and whether a double NUL ended the scan. */
  datatype Scan = Scan(rows: seq<string>, tail: string, ended: bool)

  function ScanFrom(seg: string, rowOff: nat, off: nat, afterNul: bool): Scan
    requires rowOff <= off <= |seg|
    decreases |seg| - off
  {
    if off == |seg| then Scan([], seg[rowOff..], false)
    else if seg[off] != NUL then ScanFrom(seg, rowOff, off + 1, false)
    else if afterNul then Scan([], "", true)
    else
      var rest := ScanFrom(seg, off + 1, off + 1, true);
      rest.(rows := [seg[rowOff..off]] + rest.rows)
  }

  function Scanned(seg: string): Scan {
    ScanFrom(seg, 0, 0, false)
  }

  function Filtered(rows: seq<string>, args: Arguments): (r: seq<string>)
    ensures |r| == |rows|
  {
    seq(|rows|, i requires 0 <= i < |rows| => ApplyFilter(rows[i], args))
  }

  /** Each row followed by the mark. */
  function Marked(rows: seq<string>, mark: char): string {
    if rows == [] then "" else Marked(rows[..|rows| - 1], mark) + rows[|rows| - 1] + [mark]
  }

  function ScanText(s: Scan, args: Arguments): string {
    Marked(Filtered(s.rows, args), NL) + ApplyFilter(s.tail, args)
  }

  /**
   * Without a double NUL the stream is still good after the segment, so the loop goes on
   * with nothing left to read and converts the same segment once more.
   */
  function Text(seg: string, args: Arguments): string {
    var s := Scanned(seg);
    if s.ended then ScanText(s, args) else ScanText(s, args) + ScanText(s, args)
  }

  /** The C string that starts at an offset. */
  function CString(seg: string, from: nat): string
    requires from <= |seg|
    decreases |seg| - from
  {
    if from == |seg| || seg[from] == NUL then "" else [seg[from]] + CString(seg, from + 1)
  }

  lemma {:induction false} CStringIs(seg: string, from: nat, end: nat)
    requires from <= end < |seg| && seg[end] == NUL
    requires forall i :: from <= i < end ==> seg[i] != NUL
    ensures CString(seg, from) == seg[from..end]
    decreases end - from
  {
    if from < end {
      CStringIs(seg, from + 1, end);
    }
  }

  function Prepend(rows: seq<string>, s: Scan): Scan {
    s.(rows := rows + s.rows)
  }

  lemma ScanAtNul(seg: string, rows: seq<string>, rowOff: nat, off: nat)
    requires rowOff <= off < |seg| && seg[off] == NUL
    ensures Prepend(rows, ScanFrom(seg, rowOff, off, false)) ==
            Prepend(rows + [seg[rowOff..off]], ScanFrom(seg, off + 1, off + 1, true))
    ensures ScanFrom(seg, rowOff, off, true) == Scan([], "", true)
  {
    var rest := ScanFrom(seg, off + 1, off + 1, true);
    assert rows + ([seg[rowOff..off]] + rest.rows) == (rows + [seg[rowOff..off]]) + rest.rows;
  }

  lemma ScanAtOther(seg: string, rowOff: nat, off: nat, afterNul: bool)
    requires rowOff <= off < |seg| && seg[off] != NUL
    ensures ScanFrom(seg, rowOff, off, afterNul) == ScanFrom(seg, rowOff, off + 1, false)
  {
  }

  lemma ScanAtEnd(seg: string, rowOff: nat, afterNul: bool)
    requires rowOff <= |seg|
    ensures ScanFrom(seg, rowOff, |seg|, afterNul) == Scan([], seg[rowOff..], false)
  {
  }

  lemma FilterEmpty(args: Arguments)
    ensures ApplyFilter("", args) == ""
  {
  }

  /** One reading of the segment by the inner loop. */
  method Convert(seg: string, args: Arguments) returns (out: string, ended: bool)
    ensures ended <==> Scanned(seg).ended
    ensures out == ScanText(Scanned(seg), args)
  {
    hide ApplyFilter, Filtered, Marked, CString, ScanFrom;
    out := "";
    ended := false;
    ghost var rows: seq<string> := [];
    FilteredNone(args);
    FilterEmpty(args);
    var endOfConf, rowOff := 0, 0;
    var off := 0;
    while off < |seg|
      invariant rowOff <= off <= |seg| && 0 <= endOfConf <= 1
      invariant forall i :: rowOff <= i < off ==> seg[i] != NUL
      invariant out == Marked(Filtered(rows, args), NL)
      invariant Scanned(seg) == Prepend(rows, ScanFrom(seg, rowOff, off, endOfConf == 1))
    {
      if seg[off] == NUL {
        ScanAtNul(seg, rows, rowOff, off);
        endOfConf := endOfConf + 1;
      } else {
        ScanAtOther(seg, rowOff, off, endOfConf == 1);
        endOfConf := 0;
      }
      if endOfConf == 1 {
        CStringIs(seg, rowOff, off);
        var row := CString(seg, rowOff);
        FilteredSnoc(rows, row, args);
        out := out + ApplyFilter(row, args) + [NL];
        rows := rows + [row];
        rowOff := off + 1;
      }
      if endOfConf > 1 {
        assert rows + [] == rows && out + "" == out;
        return out, true;
      }
      off := off + 1;
    }
    ScanAtEnd(seg, rowOff, endOfConf == 1);
    assert rows + [] == rows && out + "" == out;
    if rowOff < |seg| {
      out := out + ApplyFilter(seg[rowOff..], args);
    } else {
      assert seg[rowOff..] == "";
    }
  }

  lemma FilteredNone(args: Arguments)
    ensures Marked(Filtered([], args), NL) == ""
  {
  }

  lemma {:induction false} FilteredSnoc(rows: seq<string>, row: string, args: Arguments)
    ensures Marked(Filtered(rows + [row], args), NL) ==
            Marked(Filtered(rows, args), NL) + ApplyFilter(row, args) + [NL]
  {
    assert Filtered(rows + [row], args) == Filtered(rows, args) + [ApplyFilter(row, args)];
    var all := Filtered(rows + [row], args);
    assert all[..|all| - 1] == Filtered(rows, args);
  }

  /** `image` is exactly one checksum and one segment of n bytes. */
  method BinToText(image: string, n: nat, args: Arguments) returns (out: string)
    requires |image| == 4 + n
    ensures out == Text(image[4..], args)
  {
    var seg := image[4..];
    var ended: bool;
    out, ended := Convert(seg, args);
    if !ended {
      var again: string;
      again, ended := Convert(seg, args);
      out := out + again;
    }
  }

  // ----- TextToBin -----

  /** The characters of the text up to the first newline, or all of them. */
  function LineEnd(text: string): (e: nat)
    ensures e <= |text|
    ensures NL !in text[..e]
    ensures e < |text| ==> text[e] == NL
  {
    if text == "" || text[0] == NL then 0
    else
      var e := LineEnd(text[1..]) + 1;
      assert text[..e] == [text[0]] + text[1..][..e - 1];
      e
  }

  /** What one getline leaves in the row buffer, NUL included, and whether the stream stays good. */
  datatype Line = Line(copied: string, good: bool)

  function GetLine(text: string): (l: Line)
    ensures |l.copied| <= |text|
    ensures l.good ==> |l.copied| > 0
  {
    var e := LineEnd(text);
    if e > MAX_ROW then Line(text[..MAX_ROW], false)
    else if e == |text| then Line(text, false)
    else Line(text[..e] + [NUL], true)
  }

  /** Everything the loop copies into the segment. */
  function Copied(text: string): (s: string)
    ensures |s| <= |text|
    decreases |text|
  {
    var l := GetLine(text);
    if l.good then l.copied + Copied(text[|l.copied|..]) else l.copied
  }

  function Nuls(n: nat): string {
    seq(n, _ => NUL)
  }

  function Segment(text: string, n: nat): (seg: string)
    requires |Copied(text)| <= n
    ensures |seg| == n
  {
    Copied(text) + Nuls(n - |Copied(text)|)
  }

  /** A 32-bit value as a little-endian host writes it. */
  function Le32(v: uint32): (s: string)
    ensures |s| == 4
  {
    [(v % 256) as char, (v / 0x100 % 256) as char, (v / 0x1_0000 % 256) as char, (v / 0x100_0000) as char]
  }

  function Image(text: string, n: nat, crc32: Crc32): string
    requires |Copied(text)| <= n
  {
    Le32(crc32(Segment(text, n))) + Segment(text, n)
  }

  /** memcpy into the segment. */
  method CopyTo(seg: array<char>, off: nat, bytes: string)
    requires off + |bytes| <= seg.Length
    modifies seg
    ensures seg[..] == Overlaid(old(seg[..]), off, bytes)
  {
    forall i | 0 <= i < |bytes| {
      seg[off + i] := bytes[i];
    }
  }

  lemma {:induction false} CopiedStep(text: string, pos: nat)
    requires pos <= |text|
    ensures
      var l := GetLine(text[pos..]);
      && pos + |l.copied| <= |text|
      && Copied(text[pos..]) == if l.good then l.copied + Copied(text[pos + |l.copied|..]) else l.copied
  {
    var l := GetLine(text[pos..]);
    assert text[pos..][|l.copied|..] == text[pos + |l.copied|..];
  }

  method TextToBin(text: string, n: nat, crc32: Crc32) returns (image: string)
    requires |Copied(text)| <= n
    ensures image == Image(text, n, crc32)
  {
    hide Copied, GetLine, Nuls, Image, Segment, Overlaid, Le32;
    var seg := new char[n](_ => NUL);
    var segOff, pos := 0, 0;
    var good := true;
    ghost var done: string := "";
    assert text[pos..] == text;
    AllNuls(seg[..], n);
    while good
      invariant |done| == segOff <= pos <= |text|
      invariant Copied(text) == if good then done + Copied(text[pos..]) else done
      invariant segOff <= n && seg[..] == done + Nuls(n - segOff)
      decreases good, |text| - pos
    {
      CopiedStep(text, pos);
      var line := GetLine(text[pos..]);
      CopyTo(seg, segOff, line.copied);
      NulsLeft(done, line.copied, n);
      Regroup(done, line.copied, if line.good then Copied(text[pos + |line.copied|..]) else "");
      done := done + line.copied;
      segOff := segOff + |line.copied|;
      pos := pos + |line.copied|;
      good := line.good;
    }
    ImageIs(text, n, crc32, seg[..]);
    image := Le32(crc32(seg[..])) + seg[..];
  }

  lemma {:induction false} ImageIs(text: string, n: nat, crc32: Crc32, seg: string)
    requires |Copied(text)| <= n && seg == Copied(text) + Nuls(n - |Copied(text)|)
    ensures Le32(crc32(seg)) + seg == Image(text, n, crc32)
  {
  }

  lemma AllNuls(s: string, n: nat)
    requires |s| == n && forall i :: 0 <= i < n ==> s[i] == NUL
    ensures s == "" + Nuls(n)
  {
  }

  lemma NulsLeft(done: string, more: string, n: nat)
    requires |done| + |more| <= n
    ensures Overlaid(done + Nuls(n - |done|), |done|, more) == (done + more) + Nuls(n - |done + more|)
  {
  }

  // ----- rows and text -----

  /** The text with its newlines turned into row terminators, and back. */
  function Terminate(text: string): (s: string)
    ensures |s| == |text|
  {
    seq(|text|, i requires 0 <= i < |text| => if text[i] == '\n' then '\0' else text[i])
  }

  function Unterminate(seg: string): (s: string)
    ensures |s| == |seg|
  {
    seq(|seg|, i requires 0 <= i < |seg| => if seg[i] == '\0' then '\n' else seg[i])
  }

  ghost predicate MarkWithin(s: string, from: nat, mark: char) {
    exists j: nat :: from <= j <= from + 254 && j < |s| && s[j] == mark
  }

  /** No 255 characters in a row without the mark. */
  ghost predicate Short(s: string, mark: char) {
    forall i: nat :: i + 254 < |s| ==> MarkWithin(s, i, mark)
  }

  lemma ShortAfterLine(text: string, e: nat)
    requires e < |text| && e <= MAX_ROW && text[e] == NL
    ensures Short(text, NL) <==> Short(text[e + 1..], NL)
  {
    var rest := text[e + 1..];
    if Short(text, NL) {
      forall i: nat | i + MAX_ROW < |rest| ensures MarkWithin(rest, i, NL) {
        assert MarkWithin(text, e + 1 + i, NL);
        var j: nat :| e + 1 + i <= j <= e + 1 + i + MAX_ROW && j < |text| && text[j] == NL;
        assert rest[j - e - 1] == NL;
      }
    }
    if Short(rest, NL) {
      forall i: nat | i + MAX_ROW < |text| ensures MarkWithin(text, i, NL) {
        if i <= e {
          assert text[e] == NL;
        } else {
          assert MarkWithin(rest, i - e - 1, NL);
          var j: nat :| i - e - 1 <= j <= i - e - 1 + MAX_ROW && j < |rest| && rest[j] == NL;
          assert text[j + e + 1] == NL;
        }
      }
    }
  }

  lemma TooLongIsNotShort(text: string)
    requires LineEnd(text) > MAX_ROW
    ensures !Short(text, NL) && forall j :: 0 <= j <= MAX_ROW ==> text[j] != NL
  {
    var e := LineEnd(text);
    assert forall j :: 0 <= j < e ==> text[j] == text[..e][j];
    assert !MarkWithin(text, 0, NL);
  }

  lemma LastLineIsShort(text: string)
    requires LineEnd(text) == |text| <= MAX_ROW
    ensures Short(text, NL) && Terminate(text) == text
  {
    assert text[..|text|] == text;
  }

  /** Copying stops at the end or inside the first line that is too long for the row buffer. */
  lemma {:induction false} CopiedIs(text: string)
    ensures Copied(text) == Terminate(text[..|Copied(text)|])
    ensures |Copied(text)| < |text| ==> text[|Copied(text)|] != NL
    ensures |Copied(text)| == |text| <==> Short(text, NL)
    decreases |text|
  {
    hide Short;
    var e := LineEnd(text);
    if e > MAX_ROW {
      TooLongIsNotShort(text);
      assert Copied(text) == text[..MAX_ROW];
    } else if e == |text| {
      LastLineIsShort(text);
      assert text[..|text|] == text;
    } else {
      CopiedIs(text[e + 1..]);
      ShortAfterLine(text, e);
      CopiedLine(text, e);
    }
  }

  lemma {:induction false} CopiedFirst(text: string, e: nat)
    requires e == LineEnd(text) < |text| && e <= MAX_ROW
    ensures Copied(text) == text[..e] + [NUL] + Copied(text[e + 1..])
  {
    hide LineEnd;
  }

  lemma {:induction false} CopiedLine(text: string, e: nat)
    requires e == LineEnd(text) < |text| && e <= MAX_ROW
    requires Copied(text[e + 1..]) == Terminate(text[e + 1..][..|Copied(text[e + 1..])|])
    ensures |Copied(text)| == e + 1 + |Copied(text[e + 1..])|
    ensures Copied(text) == Terminate(text[..|Copied(text)|])
  {
    hide Copied, LineEnd, Terminate;
    var rest := text[e + 1..];
    var k := |Copied(rest)|;
    CopiedFirst(text, e);
    TerminateLine(text[..e], rest[..k]);
    assert text[..e + 1 + k] == text[..e] + [NL] + rest[..k];
  }

  lemma TerminateLine(line: string, rest: string)
    requires NL !in line
    ensures Terminate(line + [NL] + rest) == line + [NUL] + Terminate(rest)
  {
  }

  // ----- what a plain conversion shows -----

  predicate PairAt(s: string, i: nat, mark: char) {
    0 < i < |s| && s[i - 1] == mark && s[i] == mark
  }

  /** Where the scan stops: the second of two NULs in a row, or the end. */
  function DoubleFrom(seg: string, off: nat, afterNul: bool): (d: nat)
    requires off <= |seg| && (afterNul <==> off > 0 && seg[off - 1] == NUL)
    ensures off <= d <= |seg|
    ensures d < |seg| ==> PairAt(seg, d, NUL)
    ensures forall i: nat :: off <= i < d ==> !PairAt(seg, i, NUL)
    decreases |seg| - off
  {
    if off == |seg| then off
    else if seg[off] != NUL then DoubleFrom(seg, off + 1, false)
    else if afterNul then off
    else DoubleFrom(seg, off + 1, true)
  }

  function ConfEnd(seg: string): (d: nat)
    ensures d <= |seg|
    ensures d < |seg| ==> PairAt(seg, d, NUL)
    ensures forall i: nat :: i < d ==> !PairAt(seg, i, NUL)
  {
    DoubleFrom(seg, 0, false)
  }

  lemma {:induction false} MarkedCons(row: string, rows: seq<string>, mark: char)
    ensures Marked([row] + rows, mark) == row + [mark] + Marked(rows, mark)
    decreases |rows|
  {
    var all := [row] + rows;
    if rows == [] {
      assert all[..0] == [];
    } else {
      var init := rows[..|rows| - 1];
      MarkedCons(row, init, mark);
      assert all[..|rows|] == [row] + init;
    }
  }

  lemma {:induction false} ScanShows(seg: string, rowOff: nat, off: nat, afterNul: bool)
    requires rowOff <= off <= |seg| && (afterNul <==> off > 0 && seg[off - 1] == NUL)
    requires afterNul ==> rowOff == off
    requires forall i :: rowOff <= i < off ==> seg[i] != NUL
    ensures
      var s, d := ScanFrom(seg, rowOff, off, afterNul), DoubleFrom(seg, off, afterNul);
      && (s.ended <==> d < |seg|)
      && (s.ended ==> s.tail == "")
      && Marked(s.rows, NL) + s.tail == Unterminate(seg[rowOff..d])
    decreases |seg| - off
  {
    if off == |seg| {
      assert Unterminate(seg[rowOff..]) == seg[rowOff..];
    } else if seg[off] != NUL {
      ScanShows(seg, rowOff, off + 1, false);
    } else if !afterNul {
      ScanShows(seg, off + 1, off + 1, true);
      var rest := ScanFrom(seg, off + 1, off + 1, true);
      MarkedCons(seg[rowOff..off], rest.rows, NL);
      RowShows(seg, rowOff, off, DoubleFrom(seg, off + 1, true));
      Regroup(seg[rowOff..off] + [NL], Marked(rest.rows, NL), rest.tail);
    }
  }

  lemma Regroup(a: string, b: string, c: string)
    ensures a + (b + c) == (a + b) + c
  {
  }

  lemma RowShows(seg: string, rowOff: nat, off: nat, d: nat)
    requires rowOff <= off < d <= |seg| && seg[off] == NUL
    requires forall i :: rowOff <= i < off ==> seg[i] != NUL
    ensures Unterminate(seg[rowOff..d]) == seg[rowOff..off] + [NL] + Unterminate(seg[off + 1..d])
  {
  }

  lemma FilterNothing(rows: seq<string>)
    ensures Filtered(rows, NO_OVERRIDE) == rows
  {
  }

  /** Without overrides the text is the segment up to the double NUL, or all of it twice. */
  lemma TextIs(seg: string)
    ensures
      var d := ConfEnd(seg);
      Text(seg, NO_OVERRIDE) ==
      if d < |seg| then Unterminate(seg[..d]) else Unterminate(seg) + Unterminate(seg)
  {
    var s, d := Scanned(seg), ConfEnd(seg);
    ScanShows(seg, 0, 0, false);
    FilterNothing(s.rows);
    assert seg[0..d] == seg[..d] && seg[..|seg|] == seg;
  }

  // ----- the two round trips -----

  /** What a text must be for the round trip, checkable on the text alone. */
  ghost predicate CanonicalText(text: string, n: nat) {
    && 0 < |text| < n
    && text[|text| - 1] == '\n'
    && '\0' !in text
    && (forall i: nat :: i < |text| ==> !PairAt(text, i, '\n'))
    && Short(text, '\n')
  }

  lemma ConfEndUnique(seg: string, d: nat)
    requires PairAt(seg, d, NUL) && forall i: nat :: i < d ==> !PairAt(seg, i, NUL)
    ensures ConfEnd(seg) == d
  {
    assert ConfEnd(seg) < |seg| ==> PairAt(seg, ConfEnd(seg), NUL);
  }

  lemma CanonicalComesBack(text: string, n: nat)
    requires |text| <= n && CanonicalText(text, n)
    ensures Text(Segment(text, n), NO_OVERRIDE) == text
  {
    CopiedIs(text);
    assert text[..|text|] == text;
    var seg := Segment(text, n);
    assert seg == Terminate(text) + Nuls(n - |text|);
    forall i: nat | i < |text| ensures !PairAt(seg, i, NUL) {
      assert !PairAt(text, i, NL);
      assert text[i] != NUL && (i > 0 ==> text[i - 1] != NUL);
    }
    assert PairAt(seg, |text|, NUL);
    ConfEndUnique(seg, |text|);
    TextIs(seg);
    assert seg[..|text|] == Terminate(text);
    BackAgain(text);
  }

  lemma BackAgain(text: string)
    requires NUL !in text
    ensures Unterminate(Terminate(text)) == text
  {
  }

  lemma ComesBackIsCanonical(text: string, n: nat)
    requires |text| <= n && n > 0 && Text(Segment(text, n), NO_OVERRIDE) == text
    ensures CanonicalText(text, n)
  {
    hide Copied, Text, Short, ConfEnd;
    var seg, d := Segment(text, n), ConfEnd(Segment(text, n));
    CopiedIs(text);
    TextIs(seg);
    assert d < n;
    assert text == Unterminate(seg[..d]);
    assert d > 0 && seg[d - 1] == NUL;
    var k := |Copied(text)|;
    assert k == |text|;
    SegmentHasNoNewline(text, n);
    forall i: nat | i < |text| ensures !PairAt(text, i, NL) {
      assert !PairAt(seg, i, NUL);
    }
  }

  lemma SegmentHasNoNewline(text: string, n: nat)
    requires |Copied(text)| <= n
    ensures NL !in Segment(text, n)
  {
    CopiedIs(text);
  }

  /**
   * Text to binary to text is the identity exactly on the canonical texts: whole lines,
   * none empty but the first, none over 254 characters, no NUL, and less than the segment.
   */
  lemma TextRoundTripIff(text: string, n: nat, crc32: Crc32)
    requires |text| <= n && n > 0
    ensures Text(Image(text, n, crc32)[4..], NO_OVERRIDE) == text <==> CanonicalText(text, n)
  {
    assert Image(text, n, crc32)[4..] == Segment(text, n);
    if CanonicalText(text, n) {
      CanonicalComesBack(text, n);
    }
    if Text(Segment(text, n), NO_OVERRIDE) == text {
      ComesBackIsCanonical(text, n);
    }
  }

  /** The first four bytes as a number, the first the lowest. */
  function Number32(s: string): int
    requires |s| >= 4
  {
    s[0] as int + 0x100 * (s[1] as int) + 0x1_0000 * (s[2] as int) + 0x100_0000 * (s[3] as int)
  }

  lemma Le32Iff(s: string, v: uint32)
    requires |s| >= 4
    ensures s[..4] == Le32(v) <==> (forall i :: 0 <= i < 4 ==> s[i] as int < 256) && Number32(s) == v
  {
    hide Le32, Number32;
    Le32Number(v);
    NumberOfFirst(s);
    if (forall i :: 0 <= i < 4 ==> s[i] as int < 256) && Number32(s) == v {
      SameNumber(s[..4], Le32(v));
    }
    assert s[..4] == Le32(v) ==> forall i :: 0 <= i < 4 ==> s[i] == Le32(v)[i];
  }

  lemma NumberOfFirst(s: string)
    requires |s| >= 4
    ensures Number32(s[..4]) == Number32(s)
  {
  }

  lemma SameNumber(s: string, t: string)
    requires |s| == |t| == 4 && Number32(s) == Number32(t)
    requires forall i :: 0 <= i < 4 ==> s[i] as int < 256 && t[i] as int < 256
    ensures s == t
  {
    SameDigits(s[0] as int, s[1] as int, s[2] as int, s[3] as int, t[0] as int, t[1] as int, t[2] as int, t[3] as int);
  }

  lemma SameDigits(a: byte, b: byte, c: byte, d: byte, e: byte, f: byte, g: byte, h: byte)
    requires a + 0x100 * (b as int) + 0x1_0000 * (c as int) + 0x100_0000 * (d as int) ==
             e + 0x100 * (f as int) + 0x1_0000 * (g as int) + 0x100_0000 * (h as int)
    ensures a == e && b == f && c == g && d == h
  {
    SameLowest(a, e, b + 0x100 * (c as int) + 0x1_0000 * (d as int), f + 0x100 * (g as int) + 0x1_0000 * (h as int));
    SameLowest(b, f, c + 0x100 * (d as int), g + 0x100 * (h as int));
    SameLowest(c, g, d as int, h as int);
  }

  lemma SameLowest(a: byte, b: byte, p: int, q: int)
    requires a + 0x100 * p == b + 0x100 * q
    ensures a == b && p == q
  {
  }

  lemma Le32Number(v: uint32)
    ensures Number32(Le32(v)) == v && forall i :: 0 <= i < 4 ==> Le32(v)[i] as int < 256
  {
    var p, q, r := v / 0x100, v / 0x1_0000, v / 0x100_0000;
    assert v == v % 0x100 + 0x100 * p;
    assert p == p % 0x100 + 0x100 * q;
    assert q == q % 0x100 + 0x100 * r;
  }

  lemma NulsIff(s: string)
    ensures s == Nuls(|s|) <==> forall i :: 0 <= i < |s| ==> s[i] == '\0'
  {
  }

  /** What an image must be: checksum, rows that fit the row buffer, double NUL, then zeros. */
  ghost predicate CanonicalImage(image: string, crc32: Crc32)
    requires |image| >= 4
  {
    var seg := image[4..];
    var d := ConfEnd(seg);
    && (forall i :: 0 <= i < 4 ==> image[i] as int < 256)
    && Number32(image) == crc32(seg)
    && d < |seg|
    && '\n' !in seg[..d]
    && (forall i :: d <= i < |seg| ==> seg[i] == '\0')
    && Short(seg[..d], '\0')
  }

  lemma ShortRows(seg: string)
    requires NL !in seg
    ensures Short(Unterminate(seg), NL) <==> Short(seg, NUL)
    ensures Terminate(Unterminate(seg)) == seg
  {
    var text := Unterminate(seg);
    forall i: nat ensures MarkWithin(text, i, NL) <==> MarkWithin(seg, i, NUL) {
      if MarkWithin(text, i, NL) {
        var j: nat :| i <= j <= i + MAX_ROW && j < |text| && text[j] == NL;
        assert seg[j] == NUL;
      }
      if MarkWithin(seg, i, NUL) {
        var j: nat :| i <= j <= i + MAX_ROW && j < |seg| && seg[j] == NUL;
        assert text[j] == NL;
      }
    }
  }

  /** The segment rebuilt from the text of a segment with a double NUL. */
  lemma RebuiltIff(seg: string)
    requires ConfEnd(seg) < |seg|
    ensures
      var d := ConfEnd(seg);
      var text := Unterminate(seg[..d]);
      && |Copied(text)| <= |text| == d
      && (Segment(text, |seg|) == seg <==>
            NL !in seg[..d] && seg[d..] == Nuls(|seg| - d) && Short(seg[..d], NUL))
  {
    var d := ConfEnd(seg);
    var conf := seg[..d];
    var text := Unterminate(conf);
    var k := |Copied(text)|;
    CopiedIs(text);
    if Segment(text, |seg|) == seg {
      SegmentHasNoNewline(text, |seg|);
      ShortRows(conf);
      assert k == d;
      assert seg[d..] == Segment(text, |seg|)[d..] == Nuls(|seg| - d);
    }
    if NL !in conf && seg[d..] == Nuls(|seg| - d) && Short(conf, NUL) {
      ShortRows(conf);
      assert text[..|text|] == text;
      assert seg == conf + seg[d..];
    }
  }

  lemma TailNuls(seg: string, d: nat)
    requires d <= |seg|
    ensures seg[d..] == Nuls(|seg| - d) <==> forall i :: d <= i < |seg| ==> seg[i] == '\0'
  {
    NulsIff(seg[d..]);
    assert forall i :: d <= i < |seg| ==> seg[i] == seg[d..][i - d];
  }

  /** Binary to text to binary reproduces exactly the canonical images. */
  lemma ImageRoundTripIff(image: string, crc32: Crc32)
    requires |image| >= 4 && ConfEnd(image[4..]) < |image[4..]|
    ensures
      var text := Text(image[4..], NO_OVERRIDE);
      && |Copied(text)| <= |image| - 4
      && (Image(text, |image| - 4, crc32) == image <==> CanonicalImage(image, crc32))
  {
    hide Text, Copied, Segment, ConfEnd, Short, Nuls, Le32, Unterminate;
    var seg := image[4..];
    TextIs(seg);
    RebuiltIff(seg);
    assert image == image[..4] + seg;
    Le32Iff(image, crc32(seg));
    TailNuls(seg, ConfEnd(seg));
    var rebuilt := Image(Text(seg, NO_OVERRIDE), |seg|, crc32);
    assert rebuilt[4..] == Segment(Text(seg, NO_OVERRIDE), |seg|);
    assert rebuilt[..4] == Le32(crc32(rebuilt[4..]));
  }

  // ----- overrides -----

  /** Rows as a scan can yield them: no NUL inside, and none empty but perhaps the first. */
  ghost predicate Clean(rows: seq<string>, firstToo: bool) {
    forall i :: 0 <= i < |rows| ==> NUL !in rows[i] && (i > 0 || firstToo ==> rows[i] != "")
  }

  lemma {:induction false} ScanIsClean(seg: string, rowOff: nat, off: nat, afterNul: bool)
    requires rowOff <= off <= |seg|
    requires NUL !in seg[rowOff..off]
    ensures Clean(ScanFrom(seg, rowOff, off, afterNul).rows, afterNul || rowOff < off)
    decreases |seg| - off
  {
    if off < |seg| {
      if seg[off] != NUL {
        assert seg[rowOff..off + 1] == seg[rowOff..off] + [seg[off]];
        ScanIsClean(seg, rowOff, off + 1, false);
      } else if !afterNul {
        ScanIsClean(seg, off + 1, off + 1, true);
      }
    }
  }

  lemma {:induction false} EndedScanHasRow(seg: string, rowOff: nat, off: nat)
    requires rowOff <= off <= |seg|
    requires ScanFrom(seg, rowOff, off, false).ended
    ensures ScanFrom(seg, rowOff, off, false).rows != []
    decreases |seg| - off
  {
    if off < |seg| && seg[off] != NUL {
      EndedScanHasRow(seg, rowOff, off + 1);
    }
  }

  lemma {:induction false} ScanShift(before: string, seg: string, rowOff: nat, off: nat, afterNul: bool)
    requires rowOff <= off <= |seg|
    ensures ScanFrom(before + seg, |before| + rowOff, |before| + off, afterNul) == ScanFrom(seg, rowOff, off, afterNul)
    decreases |seg| - off
  {
    var all, n := before + seg, |before|;
    assert all[n + rowOff..] == seg[rowOff..];
    if off < |seg| {
      assert all[n + off] == seg[off];
      if seg[off] != NUL {
        ScanShift(before, seg, rowOff, off + 1, false);
      } else if !afterNul {
        assert all[n + rowOff..n + off] == seg[rowOff..off];
        ScanShift(before, seg, off + 1, off + 1, true);
      }
    }
  }

  lemma {:induction false} ScanRow(row: string, rest: string, off: nat, afterNul: bool)
    requires NUL !in row && off <= |row| && (afterNul ==> off < |row|)
    ensures ScanFrom(row + [NUL] + rest, 0, off, afterNul) ==
            Prepend([row], ScanFrom(rest, 0, 0, true))
    decreases |row| - off
  {
    var seg := row + [NUL] + rest;
    if off < |row| {
      assert seg[off] == row[off];
      ScanRow(row, rest, off + 1, false);
    } else {
      assert seg[off] == NUL && seg[0..off] == row;
      ScanShift(row + [NUL], rest, 0, 0, true);
    }
  }

  /** Terminated rows and then a NUL scan to those rows. */
  lemma {:induction false} ScanMarked(rows: seq<string>, k: nat, afterNul: bool)
    requires Clean(rows, afterNul) && k > 0 && (rows == [] ==> afterNul)
    ensures ScanFrom(Marked(rows, NUL) + Nuls(k), 0, 0, afterNul) == Scan(rows, "", true)
    decreases |rows|
  {
    if rows != [] {
      var row, rest := rows[0], rows[1..];
      ScanMarked(rest, k, true);
      assert rows == [row] + rest;
      MarkedCons(row, rest, NUL);
      var after := Marked(rest, NUL) + Nuls(k);
      assert Marked(rows, NUL) + Nuls(k) == row + [NUL] + after;
      ScanRow(row, after, 0, afterNul);
    }
  }

  /** Terminated rows and then something without a NUL scan to those rows and that rest. */
  lemma {:induction false} ScanOpen(rows: seq<string>, tail: string, afterNul: bool)
    requires Clean(rows, afterNul) && NUL !in tail
    ensures ScanFrom(Marked(rows, NUL) + tail, 0, 0, afterNul) == Scan(rows, tail, false)
    decreases |rows|
  {
    if rows == [] {
      ScanRest(tail, 0, afterNul);
      assert Marked(rows, NUL) + tail == tail;
    } else {
      var row, rest := rows[0], rows[1..];
      ScanOpen(rest, tail, true);
      assert rows == [row] + rest;
      MarkedCons(row, rest, NUL);
      var after := Marked(rest, NUL) + tail;
      assert Marked(rows, NUL) + tail == row + [NUL] + after;
      ScanRow(row, after, 0, afterNul);
    }
  }

  lemma {:induction false} ScanRest(tail: string, off: nat, afterNul: bool)
    requires NUL !in tail && off <= |tail|
    ensures ScanFrom(tail, 0, off, afterNul) == Scan([], tail, false)
    decreases |tail| - off
  {
    if off < |tail| {
      assert tail[off] in tail;
      ScanRest(tail, off + 1, false);
    }
  }

  /**
   * A segment that ends without a double NUL: all rows are filtered, the unfinished one at
   * the end included, and everything is written twice.
   */
  lemma OpenSegmentText(rows: seq<string>, tail: string, args: Arguments)
    requires Clean(rows, false) && NUL !in tail
    ensures
      var once := Marked(Filtered(rows, args), '\n') + ApplyFilter(tail, args);
      Text(Marked(rows, '\0') + tail, args) == once + once
  {
    hide Marked, Filtered, ApplyFilter, ScanFrom;
    ScanOpen(rows, tail, false);
  }

  ghost predicate Fits(rows: seq<string>) {
    forall i :: 0 <= i < |rows| ==> NL !in rows[i] && NUL !in rows[i] && |rows[i]| <= MAX_ROW
  }

  lemma {:induction false} LineEndIs(row: string, rest: string)
    requires NL !in row
    ensures LineEnd(row + [NL] + rest) == |row|
    decreases |row|
  {
    var text := row + [NL] + rest;
    if row != "" {
      LineEndIs(row[1..], rest);
      assert text[1..] == row[1..] + [NL] + rest;
    }
  }

  lemma {:induction false} CopiedRows(rows: seq<string>)
    requires Fits(rows)
    ensures Copied(Marked(rows, NL)) == Marked(rows, NUL)
    decreases |rows|
  {
    if rows != [] {
      var row, rest := rows[0], rows[1..];
      CopiedRows(rest);
      assert rows == [row] + rest;
      MarkedCons(row, rest, NL);
      MarkedCons(row, rest, NUL);
      CopiedRow(row, Marked(rest, NL));
    }
  }

  lemma {:induction false} CopiedRow(row: string, rest: string)
    requires NL !in row && |row| <= MAX_ROW
    ensures Copied(row + [NL] + rest) == row + [NUL] + Copied(rest)
  {
    var text := row + [NL] + rest;
    LineEndIs(row, rest);
    assert text[..|row|] == row;
    assert text[|row| + 1..] == rest;
  }

  lemma FilterKeepsClean(rows: seq<string>, args: Arguments)
    requires Clean(rows, false) && Fits(Filtered(rows, args))
    ensures Clean(Filtered(rows, args), false)
  {
    forall i | 0 < i < |rows| ensures ApplyFilter(rows[i], args) != "" {
      FilterReplacesValue(rows[i], args);
    }
  }

  lemma FilterTwice(rows: seq<string>, args: Arguments)
    ensures Filtered(Filtered(rows, args), args) == Filtered(rows, args)
  {
    forall i | 0 <= i < |rows|
      ensures ApplyFilter(ApplyFilter(rows[i], args), args) == ApplyFilter(rows[i], args)
    {
      FilterReplacesValue(rows[i], args);
    }
  }

  lemma FilteredRows(rows: seq<string>, args: Arguments)
    ensures
      var rows' := Filtered(rows, args);
      && |rows'| == |rows|
      && forall i :: 0 <= i < |rows| ==>
           var value := OverrideFor(KeyOf(rows[i]), args);
           && KeyOf(rows'[i]) == KeyOf(rows[i])
           && rows'[i] == if value.Some? then KeyOf(rows[i]).value + "=" + value.value else rows[i]
  {
    var rows' := Filtered(rows, args);
    forall i | 0 <= i < |rows|
      ensures
        var value := OverrideFor(KeyOf(rows[i]), args);
        && KeyOf(rows'[i]) == KeyOf(rows[i])
        && rows'[i] == if value.Some? then KeyOf(rows[i]).value + "=" + value.value else rows[i]
    {
      FilterReplacesValue(rows[i], args);
    }
  }

  /** The text of a segment with a double NUL is its filtered rows, line by line. */
  lemma TextOfRows(seg: string, args: Arguments)
    requires Scanned(seg).ended
    ensures Text(seg, args) == Marked(Filtered(Scanned(seg).rows, args), NL)
  {
    hide Marked, Filtered, ScanFrom, ApplyFilter;
    ScanShows(seg, 0, 0, false);
    FilterEmpty(args);
    var text := Marked(Filtered(Scanned(seg).rows, args), NL);
    assert text + "" == text;
  }

  /** Writing the filtered rows that fit and scanning them again gives those rows. */
  lemma RebuiltRows(seg: string, args: Arguments, n: nat)
    requires Scanned(seg).ended
    requires Fits(Filtered(Scanned(seg).rows, args))
    requires |Marked(Filtered(Scanned(seg).rows, args), NL)| < n
    ensures |Copied(Text(seg, args))| <= n
    ensures Scanned(Segment(Text(seg, args), n)) == Scan(Filtered(Scanned(seg).rows, args), "", true)
  {
    hide Copied, Marked, ScanFrom, Nuls, Filtered, ApplyFilter, Text;
    var rows, rows' := Scanned(seg).rows, Filtered(Scanned(seg).rows, args);
    TextOfRows(seg, args);
    ScanIsClean(seg, 0, 0, false);
    EndedScanHasRow(seg, 0, 0);
    FilterKeepsClean(rows, args);
    CopiedRows(rows');
    ScanMarked(rows', n - |Copied(Text(seg, args))|, false);
  }

  /** What a scan that ends has passed is its rows, each terminated. */
  lemma {:induction false} ScanTerminates(seg: string, rowOff: nat, off: nat, afterNul: bool)
    requires rowOff <= off <= |seg| && (afterNul <==> off > 0 && seg[off - 1] == NUL)
    requires afterNul ==> rowOff == off
    requires ScanFrom(seg, rowOff, off, afterNul).ended
    ensures
      var d := DoubleFrom(seg, off, afterNul);
      rowOff <= d < |seg| && Marked(ScanFrom(seg, rowOff, off, afterNul).rows, NUL) == seg[rowOff..d]
    decreases |seg| - off
  {
    hide Marked;
    if seg[off] != NUL {
      ScanTerminates(seg, rowOff, off + 1, false);
    } else if afterNul {
      MarkedNone(NUL);
    } else {
      ScanTerminates(seg, off + 1, off + 1, true);
      MarkedCons(seg[rowOff..off], ScanFrom(seg, off + 1, off + 1, true).rows, NUL);
      RowCut(seg, rowOff, off, DoubleFrom(seg, off + 1, true));
    }
  }

  lemma MarkedNone(mark: char)
    ensures Marked([], mark) == ""
  {
  }

  lemma RowCut(seg: string, rowOff: nat, off: nat, d: nat)
    requires rowOff <= off < d <= |seg| && seg[off] == NUL
    ensures seg[rowOff..d] == seg[rowOff..off] + [NUL] + seg[off + 1..d]
  {
  }

  lemma {:induction false} ScanHasNoNewline(seg: string, rowOff: nat, off: nat, afterNul: bool)
    requires rowOff <= off <= |seg| && NL !in seg
    ensures forall row :: row in ScanFrom(seg, rowOff, off, afterNul).rows ==> NL !in row
    decreases |seg| - off
  {
    if off < |seg| {
      if seg[off] != NUL {
        ScanHasNoNewline(seg, rowOff, off + 1, false);
      } else if !afterNul {
        ScanHasNoNewline(seg, off + 1, off + 1, true);
      }
    }
  }

  /** Rows whose lines are copied to the end fit the row buffer. */
  lemma {:induction false} CopiedWholeFits(rows: seq<string>)
    requires forall row :: row in rows ==> NL !in row && NUL !in row
    requires |Copied(Marked(rows, NL))| == |Marked(rows, NL)|
    ensures Fits(rows)
    decreases |rows|
  {
    if rows != [] {
      var row, rest := rows[0], rows[1..];
      assert rows == [row] + rest;
      MarkedCons(row, rest, NL);
      LineEndIs(row, Marked(rest, NL));
      assert |row| <= MAX_ROW;
      CopiedRow(row, Marked(rest, NL));
      CopiedWholeFits(rest);
    }
  }

  lemma {:induction false} MarkedTerminates(rows: seq<string>)
    requires forall row :: row in rows ==> NL !in row && NUL !in row
    ensures Terminate(Marked(rows, NL)) == Marked(rows, NUL) && NUL !in Marked(rows, NL)
  {
    if rows != [] {
      var init, row := rows[..|rows| - 1], rows[|rows| - 1];
      MarkedTerminates(init);
      assert row in rows;
      TerminateMore(Marked(init, NL), row);
    }
  }

  lemma TerminateMore(text: string, line: string)
    requires NL !in line
    ensures Terminate(text + line + [NL]) == Terminate(text) + line + [NUL]
  {
  }

  /** Where copying stops inside a line the segment has a NUL instead. */
  lemma CutShows(text: string, n: nat)
    requires |Copied(text)| < |text| <= n && NUL !in text
    ensures Segment(text, n)[|Copied(text)|] == NUL != Terminate(text)[|Copied(text)|]
  {
    CopiedIs(text);
  }

  /** And rows that come back from the segment written for them fit it. */
  lemma RebuiltOnlyIfFits(rows: seq<string>, n: nat)
    requires |Copied(Marked(rows, NL))| <= n
    requires Scanned(Segment(Marked(rows, NL), n)) == Scan(rows, "", true)
    ensures Fits(rows) && |Marked(rows, NL)| < n
  {
    hide Copied, Marked, ScanFrom, Short, Segment, Terminate;
    var text, seg := Marked(rows, NL), Segment(Marked(rows, NL), n);
    SegmentHasNoNewline(text, n);
    ScanHasNoNewline(seg, 0, 0, false);
    ScanIsClean(seg, 0, 0, false);
    ScanTerminates(seg, 0, 0, false);
    MarkedTerminates(rows);
    assert Terminate(text) == seg[..|text|];
    if |Copied(text)| < |text| {
      CutShows(text, n);
      assert false;
    }
    CopiedWholeFits(rows);
  }

  /**
   * Converting with overrides and writing the text back: the rows of the new segment are
   * the filtered rows exactly when each fits the row buffer and all together leave room in
   * the segment. They are as many, in the same order and with the same keys; the overridden
   * values are exactly replaced, and converting once more then gives the same text.
   */
  lemma OverridesRebuild(seg: string, args: Arguments, n: nat)
    requires Scanned(seg).ended && |Copied(Text(seg, args))| <= n
    ensures
      var rows, rows' := Scanned(seg).rows, Filtered(Scanned(seg).rows, args);
      && |rows'| == |rows|
      && forall i :: 0 <= i < |rows| ==>
           var value := OverrideFor(KeyOf(rows[i]), args);
           && KeyOf(rows'[i]) == KeyOf(rows[i])
           && rows'[i] == if value.Some? then KeyOf(rows[i]).value + "=" + value.value else rows[i]
    ensures
      var rows' := Filtered(Scanned(seg).rows, args);
      && (Scanned(Segment(Text(seg, args), n)) == Scan(rows', "", true)
          <==> Fits(rows') && |Marked(rows', NL)| < n)
      && (Fits(rows') && |Marked(rows', NL)| < n ==> Text(Segment(Text(seg, args), n), args) == Text(seg, args))
  {
    hide Copied, Marked, ScanFrom, Fits, Segment, ApplyFilter, OverrideFor, KeyOf;
    var rows, rows' := Scanned(seg).rows, Filtered(Scanned(seg).rows, args);
    TextOfRows(seg, args);
    FilteredRows(rows, args);
    if Fits(rows') && |Marked(rows', NL)| < n {
      RebuiltRows(seg, args, n);
      TextOfRows(Segment(Text(seg, args), n), args);
      FilterTwice(rows, args);
    }
    if Scanned(Segment(Text(seg, args), n)) == Scan(rows', "", true) {
      RebuiltOnlyIfFits(rows', n);
    }
  }
}
