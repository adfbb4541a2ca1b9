/** The format converters: the four `create_dem_*` operations of the
    `Utility` variants (include/DEM/Utility.hpp, Utility.hpp,
    include/Utility.hpp, src/Utility.cpp) and the static members of the
    oldest header (DEM.hpp). An ESRI ASCII grid or a comma-separated grid
    becomes a raw sample file, and either becomes comma-separated text.
    Input is read from the file system value as characters (text) or bytes
    (samples); what a converter writes is returned as an `Output`. */
module Transcode {
  import opened Wrappers
  import opened Samples
  import opened Text
  import opened Files

  /** How a variant treats a missing input: `std::filesystem::exists`,
      the `ifstream`'s `good()`, or not at all. */
  datatype InputCheck = PathExists | StreamGood | Unchecked

  /** How the metadata header of an ASCII grid is passed over: by
      `dynamic_metadata_skip`, or by reading a fixed number of lines. */
  datatype HeaderSkip = Dynamic | FixedLines(count: nat)

  /** How the output path is made: `std::filesystem::path::replace_extension`,
      or the text up to the last '.' of the whole path. */
  datatype Naming = ReplaceExtension | AfterLastDot

  /** How a comma-separated token becomes a sample: `std::stoi` then a
      narrowing cast, or `std::stod` then a cast to the sample type. */
  datatype Conversion = Stoi | Stod

  /** The behaviour that distinguishes the variants; `reverse` is the
      outcome of the variant's `serialize` test on this host. */
  datatype Variant = Variant(check: InputCheck, skip: HeaderSkip, naming: Naming, conversion: Conversion, reverse: bool)

  /** What stops a converter. `NotFound`, `InvalidArgument` and `OutOfRange`
      are exceptions the source throws; the two `Undefined` cases are
      undefined behaviour there (a floating-point value cast to a sample
      type that cannot hold it, and a read past the end of the samples). */
  datatype TranscodeError =
    | NotFound(path: string)
    | InvalidArgument(token: string)
    | OutOfRange(token: string)
    | UndefinedConversion(token: string)
    | UndefinedRead(index: nat)

  /** The file a converter writes: its path and its content. */
  datatype Output<T> = Output(path: string, content: T)

  /** include/DEM/Utility.hpp, for the byte order `requested` of the
      `endianness` template argument. */
  function PathUtility(requested: Endian, native: Endian): Variant {
    Variant(PathExists, Dynamic, ReplaceExtension, Stod, ReversesXor(requested, native))
  }

  /** Utility.hpp, for the byte order `requested` of its `endianness`. */
  function StringUtility(requested: Endian, native: Endian): Variant {
    Variant(StreamGood, Dynamic, AfterLastDot, Stod, ReversesXor(requested, native))
  }

  /** include/Utility.hpp, for its `bool little_endian` argument. */
  function FlagUtility(littleEndian: bool, native: Endian): Variant {
    Variant(StreamGood, Dynamic, AfterLastDot, Stod, ReversesXor(OrderOf(littleEndian), native))
  }

  /** src/Utility.cpp, for its `little_endian` argument. */
  function FreeUtility(littleEndian: bool, native: Endian): Variant {
    Variant(Unchecked, Dynamic, AfterLastDot, Stoi, ReversesAnd(littleEndian, native))
  }

  /** The static members of DEM.hpp: five header lines, no byte-order
      handling. */
  const FlatTranscoders: Variant := Variant(Unchecked, FixedLines(5), AfterLastDot, Stoi, false)

  // ---------------------------------------------------------------------
  // Passing over the metadata header

  /** Where reading resumes after the header: at a position, at the start
      of the file (the default `std::streampos`), or nowhere, because the
      stream has failed. */
  datatype Resume = At(position: nat) | FromStart | Lost

  function Shift(r: Resume, d: nat): Resume {
    match r
    case At(p) => At(p + d)
    case _ => r
  }

  /** A line whose first character other than white space is a digit. */
  predicate DataLine(line: string) {
    var w := SkipSpace(line, 0);
    w < |line| && IsDigit(line[w])
  }

  predicate NoLineFeed(s: string) {
    forall k :: 0 <= k < |s| ==> s[k] != '\n'
  }

  /** Where `dynamic_metadata_skip` leaves the stream: at the first digit
      of the first data line when a line feed ends that line; lost when
      the data line is the last one and has no line feed (`tellg` fails
      at the end of the stream and the seek goes to a negative offset);
      at the start when no line is a data line. */
  function Skip(text: string): (r: Resume)
    ensures r.At? ==> r.position < |text| && IsDigit(text[r.position])
    decreases |text|
  {
    if text == [] then FromStart
    else
      var e := Find(text, '\n');
      var line := text[..e];
      if DataLine(line) then (if e < |text| then At(SkipSpace(line, 0)) else Lost)
      else if e == |text| then FromStart
      else Shift(Skip(text[e + 1..]), e + 1)
  }

  /** `dynamic_metadata_skip`: lines are read until one, with its leading
      white space erased, starts with a digit; the stream is then put back
      by that line's length from where `tellg` stands. */
  method DynamicMetadataSkip(text: string) returns (r: Resume)
    ensures r == Skip(text)
  {
    var i := 0;
    while i < |text|
      invariant i <= |text|
      invariant Skip(text) == Shift(Skip(text[i..]), i)
      decreases |text| - i
    {
      var rest := text[i..];
      var e := Find(rest, '\n');
      var line := rest[..e];
      var w := SkipSpace(line, 0);
      var trimmed := line[w..];
      SkipStep(text, i, e, w, trimmed);
      if trimmed != [] && IsDigit(trimmed[0]) {
        var tell: int := if e < |rest| then i + e + 1 else -1;
        var position := tell - (|trimmed| + 1);
        if position >= 0 {
          return At(position);
        }
        return Lost;
      }
      i := if e == |rest| then |text| else i + e + 1;
    }
    return FromStart;
  }

  /** One line of `Skip` from position `i` on: the line ends at `i + e`,
      and is `trimmed` once its white space up to `w` is erased. */
  lemma SkipStep(text: string, i: nat, e: nat, w: nat, trimmed: string)
    requires i < |text| && e == Find(text[i..], '\n')
    requires w == SkipSpace(text[i..][..e], 0) && trimmed == text[i..][..e][w..]
    ensures trimmed != [] && IsDigit(trimmed[0]) ==>
      Shift(Skip(text[i..]), i) == if i + e < |text| then At(i + w) else Lost
    ensures !(trimmed != [] && IsDigit(trimmed[0])) && i + e == |text| ==>
      Shift(Skip(text[i..]), i) == Shift(Skip(text[|text|..]), |text|)
    ensures !(trimmed != [] && IsDigit(trimmed[0])) && i + e < |text| ==>
      Shift(Skip(text[i..]), i) == Shift(Skip(text[i + e + 1..]), i + e + 1)
  {
    var rest := text[i..];
    var line := rest[..e];
    assert DataLine(line) <==> trimmed != [] && IsDigit(trimmed[0]);
    if e < |rest| {
      if !DataLine(line) {
        SkipNextLine(text, i, e);
      }
    } else {
      assert text[|text|..] == [];
    }
  }

  lemma SkipNextLine(text: string, i: nat, e: nat)
    requires i < |text| && e == Find(text[i..], '\n') && i + e < |text|
    requires !DataLine(text[i..][..e])
    ensures Shift(Skip(text[i..]), i) == Shift(Skip(text[i + e + 1..]), i + e + 1)
  {
    SkipHeaderLine(text[i..], e);
    DropDrop(text, i, e + 1);
    ShiftShift(Skip(text[i + e + 1..]), e + 1, i);
  }

  /** A first line that is not a data line is passed over. */
  lemma SkipHeaderLine(text: string, e: nat)
    requires e == Find(text, '\n') && e < |text| && !DataLine(text[..e])
    ensures Skip(text) == Shift(Skip(text[e + 1..]), e + 1)
  {
  }

  lemma DropDrop(text: string, i: nat, d: nat)
    requires i + d <= |text|
    ensures text[i..][d..] == text[i + d..]
  {
  }

  lemma ShiftShift(r: Resume, d: nat, i: nat)
    ensures Shift(Shift(r, d), i) == Shift(r, i + d)
  {
  }

  /** Each line followed by a line feed. */
  function Terminated(lines: seq<string>): string {
    if lines == [] then "" else lines[0] + "\n" + Terminated(lines[1..])
  }

  lemma {:induction false} TerminatedSnoc(lines: seq<string>, line: string)
    ensures Terminated(lines + [line]) == Terminated(lines) + line + "\n"
    decreases |lines|
  {
    if lines == [] {
      assert lines + [line] == [line];
      assert [line][1..] == [];
    } else {
      assert (lines + [line])[1..] == lines[1..] + [line];
      TerminatedSnoc(lines[1..], line);
    }
  }

  lemma TerminatedCons(lines: seq<string>, rest: string)
    requires lines != []
    ensures Terminated(lines) + rest == lines[0] + "\n" + (Terminated(lines[1..]) + rest)
  {
  }

  /** Header lines that are not data lines are passed over: the outcome
      is the one for the text after them. */
  lemma {:induction false} SkipPastHeader(header: seq<string>, body: string)
    requires forall i :: 0 <= i < |header| ==> NoLineFeed(header[i]) && !DataLine(header[i])
    ensures Skip(Terminated(header) + body) == Shift(Skip(body), |Terminated(header)|)
    decreases |header|
  {
    if header == [] {
      assert Terminated(header) + body == body;
      assert Shift(Skip(body), 0) == Skip(body);
    } else {
      var line, tail := header[0], Terminated(header[1..]);
      SkipPastHeader(header[1..], body);
      assert Terminated(header) + body == line + "\n" + (tail + body);
      SplitAtFirst(line, '\n', tail + body);
    }
  }

  /** A data line ended by a line feed is where reading resumes, at its
      first digit. */
  lemma DataLineFirst(line: string, rest: string)
    requires NoLineFeed(line) && DataLine(line)
    ensures Skip(line + "\n" + rest) == At(SkipSpace(line, 0))
  {
    SplitAtFirst(line, '\n', rest);
  }

  /** A data line that ends the text without a line feed loses the
      stream: nothing is read at all. */
  lemma LastDataLineLost(line: string)
    requires NoLineFeed(line) && DataLine(line)
    ensures Skip(line) == Lost
  {
    assert line[..|line|] == line;
  }

  /** A grid whose first row begins with a negative value loses that row:
      its line counts as metadata and reading starts at the next line. */
  lemma NegativeFirstRowSkipped(header: seq<string>, row: string, next: string, rest: string)
    requires forall i :: 0 <= i < |header| ==> NoLineFeed(header[i]) && !DataLine(header[i])
    requires NoLineFeed(row) && SkipSpace(row, 0) < |row| && row[SkipSpace(row, 0)] == '-'
    requires NoLineFeed(next) && DataLine(next)
    ensures Skip(Terminated(header + [row]) + (next + "\n" + rest))
         == At(|Terminated(header)| + |row| + 1 + SkipSpace(next, 0))
  {
    var lines := header + [row];
    assert forall i :: 0 <= i < |lines| ==> NoLineFeed(lines[i]) && !DataLine(lines[i]) by {
      forall i | 0 <= i < |lines|
        ensures NoLineFeed(lines[i]) && !DataLine(lines[i])
      {
        if i < |header| {
          assert lines[i] == header[i];
        }
      }
    }
    SkipPastHeader(lines, next + "\n" + rest);
    DataLineFirst(next, rest);
    TerminatedSnoc(header, row);
  }

  /** The first `c` at or after position `p` of `s`, or `|s|`. */
  function FindFrom(s: string, p: nat, c: char): (k: nat)
    requires p <= |s|
    ensures p <= k <= |s|
    ensures k < |s| ==> s[k] == c
    decreases |s| - p
  {
    if p == |s| || s[p] == c then p else FindFrom(s, p + 1, c)
  }

  /** Where the stream stands after `count` calls of `std::getline` from
      position `p`: each call passes the next line feed; a line that ends
      the text without one, or a missing line, leaves the stream failed. */
  function AfterFrom(text: string, p: nat, count: nat): (r: Resume)
    requires p <= |text|
    ensures r.At? ==> p <= r.position <= |text|
    decreases count
  {
    if count == 0 then At(p)
    else
      var e := FindFrom(text, p, '\n');
      if e == |text| then Lost else AfterFrom(text, e + 1, count - 1)
  }

  /** Where reading resumes after `count` lines have been read from the
      start of the text. */
  function AfterLines(text: string, count: nat): (r: Resume)
    ensures r.At? ==> r.position <= |text|
  {
    AfterFrom(text, 0, count)
  }

  /** The header loop of DEM.hpp's `create_dem_asc_*`: `count` lines read
      and discarded. */
  method SkipLines(text: string, count: nat) returns (r: Resume)
    ensures r == AfterLines(text, count)
  {
    var position: nat := 0;
    var failed := false;
    for i := 0 to count
      invariant position <= |text|
      invariant AfterLines(text, count) == if failed then Lost else AfterFrom(text, position, count - i)
    {
      if !failed {
        var e := FindFrom(text, position, '\n');
        if e == |text| {
          failed := true;
        } else {
          position := e + 1;
        }
      }
    }
    r := if failed then Lost else At(position);
  }

  /** Text in front of the stream's position does not change where the
      next line feed is. */
  lemma {:induction false} FindFromAfter(pre: string, s: string, p: nat, c: char)
    requires p <= |s|
    ensures FindFrom(pre + s, |pre| + p, c) == |pre| + FindFrom(s, p, c)
    decreases |s| - p
  {
    if p < |s| {
      assert (pre + s)[|pre| + p] == s[p];
      if s[p] != c {
        FindFromAfter(pre, s, p + 1, c);
      }
    }
  }

  /** Text in front of the stream's position does not change what the
      line reads do, only where they leave the stream. */
  lemma {:induction false} AfterFromAfter(pre: string, s: string, p: nat, count: nat)
    requires p <= |s|
    ensures AfterFrom(pre + s, |pre| + p, count) == Shift(AfterFrom(s, p, count), |pre|)
    decreases count
  {
    if count > 0 {
      FindFromAfter(pre, s, p, '\n');
      var e := FindFrom(s, p, '\n');
      if e < |s| {
        AfterFromAfter(pre, s, e + 1, count - 1);
      }
    }
  }

  /** The first line feed after a line that has none is the one ending it. */
  lemma {:induction false} FindFromLine(line: string, rest: string, p: nat)
    requires NoLineFeed(line) && p <= |line|
    ensures FindFrom(line + "\n" + rest, p, '\n') == |line|
    decreases |line| - p
  {
    var text := line + "\n" + rest;
    if p < |line| {
      assert text[p] == line[p];
      FindFromLine(line, rest, p + 1);
    } else {
      assert text[p] == '\n';
    }
  }

  /** A first line with its line feed is passed over by one `getline`. */
  lemma LineThenRest(line: string, rest: string, count: nat)
    requires NoLineFeed(line) && count > 0
    ensures AfterLines(line + "\n" + rest, count) == Shift(AfterLines(rest, count - 1), |line| + 1)
  {
    FindFromLine(line, rest, 0);
    AfterFromAfter(line + "\n", rest, 0, count - 1);
  }

  /** Reading lines that each end in a line feed passes over them. */
  lemma {:induction false} LinesSkipped(header: seq<string>, body: string, count: nat)
    requires |header| <= count
    requires forall i :: 0 <= i < |header| ==> NoLineFeed(header[i])
    ensures AfterLines(Terminated(header) + body, count)
         == Shift(AfterLines(body, count - |header|), |Terminated(header)|)
    decreases |header|
  {
    if header == [] {
      NoLines(body);
      ShiftNone(AfterLines(body, count));
    } else {
      LinesSkipped(header[1..], body, count - 1);
      FirstLineSkipped(header, body, count);
    }
  }

  lemma FirstLineSkipped(header: seq<string>, body: string, count: nat)
    requires 0 < |header| <= count && NoLineFeed(header[0])
    requires AfterLines(Terminated(header[1..]) + body, count - 1)
          == Shift(AfterLines(body, count - |header|), |Terminated(header[1..])|)
    ensures AfterLines(Terminated(header) + body, count)
         == Shift(AfterLines(body, count - |header|), |Terminated(header)|)
  {
    var tail := Terminated(header[1..]);
    TerminatedCons(header, body);
    LineThenRest(header[0], tail + body, count);
    ShiftShift(AfterLines(body, count - |header|), |tail|, |header[0]| + 1);
  }

  lemma NoLines(body: string)
    ensures Terminated([]) + body == body
  {
  }

  lemma ShiftNone(r: Resume)
    ensures Shift(r, 0) == r
  {
  }

  /** Reading exactly the header's lines lands right after them; reading
      more lines than the file has yields nothing. */
  lemma HeaderLinesSkipped(header: seq<string>, body: string, count: nat)
    requires |header| <= count
    requires forall i :: 0 <= i < |header| ==> NoLineFeed(header[i])
    ensures count == |header| ==> AfterLines(Terminated(header) + body, count) == At(|Terminated(header)|)
    ensures count > |header| ==> AfterLines(Terminated(header), count) == Lost
  {
    LinesSkipped(header, body, count);
    if count > |header| {
      LinesSkipped(header, [], count);
      assert Terminated(header) + [] == Terminated(header);
    }
  }

  /** Where the variant's header handling leaves the stream. */
  function HeaderEnd(skip: HeaderSkip, text: string): (r: Resume)
    ensures r.At? ==> r.position <= |text|
  {
    match skip
    case Dynamic => Skip(text)
    case FixedLines(count) => AfterLines(text, count)
  }

  method SkipHeader(skip: HeaderSkip, text: string) returns (r: Resume)
    ensures r == HeaderEnd(skip, text)
  {
    match skip {
      case Dynamic =>
        r := DynamicMetadataSkip(text);
      case FixedLines(count) =>
        r := SkipLines(text, count);
    }
  }

  // ---------------------------------------------------------------------
  // Reading samples from text

  /** The samples `while (ifp >> value)` reads: integers separated by
      white space, up to the first text that is not one or a value the
      sample type cannot hold (which fails the stream). */
  function Extracted(text: string): seq<Int16>
    decreases |text|
  {
    match ScanInt(text, 0)
    case None => []
    case Some((v, e)) => if -32768 <= v < 32768 then [v] + Extracted(text[e..]) else []
  }

  /** The samples read from where the header left the stream. */
  function Values(text: string, start: Resume): seq<Int16>
    requires start.At? ==> start.position <= |text|
  {
    match start
    case At(p) => Extracted(text[p..])
    case FromStart => Extracted(text)
    case Lost => []
  }

  /** Every sample passed through `serialize`. */
  function SerializeAll(vs: seq<Int16>, reverse: bool): (ws: seq<Int16>)
    ensures |ws| == |vs|
    ensures forall k :: 0 <= k < |vs| ==> ws[k] == Serialized(vs[k], reverse)
  {
    seq(|vs|, k requires 0 <= k < |vs| => Serialized(vs[k], reverse))
  }

  lemma SerializeCons(v: Int16, vs: seq<Int16>, reverse: bool)
    ensures SerializeAll([v] + vs, reverse) == [Serialized(v, reverse)] + SerializeAll(vs, reverse)
  {
    var a, b := SerializeAll([v] + vs, reverse), [Serialized(v, reverse)] + SerializeAll(vs, reverse);
    forall k | 0 <= k < |a|
      ensures a[k] == b[k]
    {
      if k > 0 {
        assert ([v] + vs)[k] == vs[k - 1];
      }
    }
  }

  /** Serializing every sample twice gives the samples back. */
  lemma {:induction false} SerializeAllInvolution(vs: seq<Int16>, reverse: bool)
    ensures SerializeAll(SerializeAll(vs, reverse), reverse) == vs
  {
    var ws := SerializeAll(SerializeAll(vs, reverse), reverse);
    forall k | 0 <= k < |vs|
      ensures ws[k] == vs[k]
    {
      SerializeInvolution(vs[k], reverse);
    }
  }

  lemma SerializeNothing(vs: seq<Int16>)
    ensures SerializeAll(vs, false) == vs
  {
  }

  /** The reading loop of `create_dem_asc_*`: each sample read is pushed,
      passed through the variant's `serialize` when converting to binary
      (`reverse` is false for the comma-separated output, which keeps the
      samples as read). */
  method ReadValues(text: string, start: Resume, reverse: bool, native: Endian) returns (vs: seq<Int16>)
    requires start.At? ==> start.position <= |text|
    ensures vs == SerializeAll(Values(text, start), reverse)
  {
    vs := [];
    if start.Lost? {
      return;
    }
    var s := if start.At? then text[start.position..] else text;
    var union := new Union16(native);
    var more := true;
    while more
      invariant union.Valid()
      invariant more ==> SerializeAll(Values(text, start), reverse) == vs + SerializeAll(Extracted(s), reverse)
      invariant !more ==> SerializeAll(Values(text, start), reverse) == vs
      decreases |s|, more
    {
      ExtractedCases(s, vs, reverse);
      match ScanInt(s, 0) {
        case None =>
          more := false;
        case Some((v, e)) =>
          if -32768 <= v < 32768 {
            var w := union.Serialize(v, reverse);
            vs := vs + [w];
            s := s[e..];
          } else {
            more := false;
          }
      }
    }
  }

  /** One extraction from `s`, in terms of the samples gathered so far. */
  lemma ExtractedCases(s: string, vs: seq<Int16>, reverse: bool)
    ensures ScanInt(s, 0).None? ==> vs + SerializeAll(Extracted(s), reverse) == vs
    ensures ScanInt(s, 0).Some? && !(-32768 <= ScanInt(s, 0).value.0 < 32768) ==>
      vs + SerializeAll(Extracted(s), reverse) == vs
    ensures ScanInt(s, 0).Some? && -32768 <= ScanInt(s, 0).value.0 < 32768 ==>
      var (v, e) := ScanInt(s, 0).value;
      vs + SerializeAll(Extracted(s), reverse) == (vs + [Serialized(v, reverse)]) + SerializeAll(Extracted(s[e..]), reverse)
  {
    match ScanInt(s, 0) {
      case None =>
        assert vs + [] == vs;
      case Some((v, e)) =>
        if -32768 <= v < 32768 {
          SerializeCons(v, Extracted(s[e..]), reverse);
          assert vs + ([Serialized(v, reverse)] + SerializeAll(Extracted(s[e..]), reverse))
              == (vs + [Serialized(v, reverse)]) + SerializeAll(Extracted(s[e..]), reverse);
        } else {
          assert vs + [] == vs;
        }
    }
  }

  /** The body of an ASCII grid: the rows of `vs`, `ncols` values each,
      separated by single spaces, each row ended by a line feed. */
  function GridFrom(vs: seq<int>, ncols: nat, i: nat): string
    requires ncols > 0 && i <= |vs|
    decreases |vs| - i
  {
    if i == |vs| then ""
    else Render(vs[i]) + ([if i % ncols == ncols - 1 then '\n' else ' '] + GridFrom(vs, ncols, i + 1))
  }

  lemma {:induction false} SkipSpaceAfter(c: char, t: string, k: nat)
    requires k <= |t|
    ensures SkipSpace([c] + t, k + 1) == SkipSpace(t, k) + 1
    decreases |t| - k
  {
    var s := [c] + t;
    if k < |t| {
      assert s[k + 1] == t[k];
      if IsSpace(t[k]) {
        SkipSpaceAfter(c, t, k + 1);
      }
    }
  }

  lemma {:induction false} DigitRunAfter(c: char, t: string, k: nat)
    requires k <= |t|
    ensures DigitRun([c] + t, k + 1) == DigitRun(t, k) + 1
    decreases |t| - k
  {
    var s := [c] + t;
    if k < |t| {
      assert s[k + 1] == t[k];
      if IsDigit(t[k]) {
        DigitRunAfter(c, t, k + 1);
      }
    }
  }

  /** A scan result moved `d` characters further along. */
  function ShiftScan(r: Option<(int, nat)>, d: nat): (q: Option<(int, nat)>)
    ensures q.Some? <==> r.Some?
    ensures r.Some? ==> q.value == (r.value.0, r.value.1 + d)
  {
    match r
    case None => None
    case Some((v, e)) => Some((v, e + d))
  }

  /** White space in front of a number changes only where it ends. */
  lemma ScanAfterSpace(c: char, t: string)
    requires IsSpace(c)
    ensures ScanInt([c] + t, 0) == ShiftScan(ScanInt(t, 0), 1)
  {
    var s := [c] + t;
    SkipSpaceAfter(c, t, 0);
    var a := SkipSpace(t, 0);
    var neg := a < |t| && t[a] == '-';
    var b := if a < |t| && (t[a] == '-' || t[a] == '+') then a + 1 else a;
    if a < |t| {
      assert s[a + 1] == t[a];
    }
    DigitRunAfter(c, t, b);
    var e := DigitRun(t, b);
    if e == b {
      ScanShiftNone(c, t, s, neg, a, b, e);
    } else {
      ScanShiftSome(c, t, s, neg, a, b, e);
    }
  }

  lemma ScanShiftNone(c: char, t: string, s: string, neg: bool, a: nat, b: nat, e: nat)
    requires s == [c] + t && a == SkipSpace(t, 0) && SkipSpace(s, 0) == a + 1
    requires a < |t| ==> s[a + 1] == t[a]
    requires neg == (a < |t| && t[a] == '-')
    requires b == if a < |t| && (t[a] == '-' || t[a] == '+') then a + 1 else a
    requires e == DigitRun(t, b) && DigitRun(s, b + 1) == e + 1
    requires e == b
    ensures ScanInt(s, 0) == ShiftScan(ScanInt(t, 0), 1)
  {
    ScanParts(t, neg, a, b, e);
    ScanParts(s, neg, a + 1, b + 1, e + 1);
  }

  lemma ScanShiftSome(c: char, t: string, s: string, neg: bool, a: nat, b: nat, e: nat)
    requires s == [c] + t && a == SkipSpace(t, 0) && SkipSpace(s, 0) == a + 1
    requires a < |t| ==> s[a + 1] == t[a]
    requires neg == (a < |t| && t[a] == '-')
    requires b == if a < |t| && (t[a] == '-' || t[a] == '+') then a + 1 else a
    requires e == DigitRun(t, b) && DigitRun(s, b + 1) == e + 1
    requires e != b
    ensures ScanInt(s, 0) == ShiftScan(ScanInt(t, 0), 1)
  {
    ScanParts(t, neg, a, b, e);
    ScanParts(s, neg, a + 1, b + 1, e + 1);
    ConsSlice(c, t, b, e);
    ShiftCombine(t, s, neg, b, e);
  }

  lemma ShiftCombine(t: string, s: string, neg: bool, b: nat, e: nat)
    requires b < e <= |t| && e + 1 <= |s|
    requires s[b + 1..e + 1] == t[b..e] && AllDigits(t[b..e])
    requires ScanInt(t, 0) == Some((Signed(neg, ValueOfDigits(t[b..e])), e))
    requires ScanInt(s, 0) == Some((Signed(neg, ValueOfDigits(s[b + 1..e + 1])), e + 1))
    ensures ScanInt(s, 0) == ShiftScan(ScanInt(t, 0), 1)
  {
  }

  lemma ConsSuffix(c: char, t: string, e: nat)
    requires e <= |t|
    ensures ([c] + t)[e + 1..] == t[e..]
  {
  }

  lemma ConsSlice(c: char, t: string, b: nat, e: nat)
    requires b <= e <= |t|
    ensures ([c] + t)[b + 1..e + 1] == t[b..e]
  {
  }

  /** `ScanInt` from the start, in terms of its parts: the white space
      ends at `a`, the digits run from `b` to `e`. */
  lemma ScanParts(s: string, neg: bool, a: nat, b: nat, e: nat)
    requires a == SkipSpace(s, 0)
    requires neg == (a < |s| && s[a] == '-')
    requires b == if a < |s| && (s[a] == '-' || s[a] == '+') then a + 1 else a
    requires e == DigitRun(s, b)
    ensures e == b ==> ScanInt(s, 0) == None
    ensures e != b ==> ScanInt(s, 0) == Some((Signed(neg, ValueOfDigits(s[b..e])), e))
  {
  }

  /** A magnitude with the sign that was read in front of it. */
  function Signed(neg: bool, n: int): int {
    if neg then -n else n
  }

  lemma ExtractedAfterSpace(c: char, t: string)
    requires IsSpace(c)
    ensures Extracted([c] + t) == Extracted(t)
  {
    ScanAfterSpace(c, t);
    match ScanInt(t, 0) {
      case None =>
      case Some((v, e)) =>
        ConsSuffix(c, t, e);
    }
  }

  /** A written sample followed by white space reads back as itself. */
  lemma ExtractedStep(v: Int16, c: char, rest: string)
    requires IsSpace(c)
    ensures Extracted(Render(v) + ([c] + rest)) == [v] + Extracted(rest)
  {
    var r, tail := Render(v), [c] + rest;
    ParseRenderThen(v, tail);
    assert (r + tail)[|r|..] == tail;
    ExtractedAfterSpace(c, rest);
  }

  /** The samples of an ASCII grid body are read back in order. */
  lemma {:induction false} ExtractedGrid(vs: seq<Int16>, ncols: nat, i: nat)
    requires ncols > 0 && i <= |vs|
    ensures Extracted(GridFrom(vs, ncols, i)) == vs[i..]
    decreases |vs| - i
  {
    if i == |vs| {
      assert ScanInt("", 0).None?;
    } else {
      var c: char := if i % ncols == ncols - 1 then '\n' else ' ';
      ExtractedStep(vs[i], c, GridFrom(vs, ncols, i + 1));
      ExtractedGrid(vs, ncols, i + 1);
      DropCons(vs, i);
    }
  }

  lemma DropCons<T>(s: seq<T>, i: nat)
    requires i < |s|
    ensures s[i..] == [s[i]] + s[i + 1..]
  {
  }

  /** A grid body ends with a line feed when its last row is complete. */
  lemma {:induction false} GridEnds(vs: seq<int>, ncols: nat, i: nat)
    requires ncols > 0 && i < |vs| && (|vs| - 1) % ncols == ncols - 1
    ensures var g := GridFrom(vs, ncols, i); |g| > 0 && g[|g| - 1] == '\n'
    decreases |vs| - i
  {
    if i + 1 < |vs| {
      GridEnds(vs, ncols, i + 1);
    }
  }

  /** A grid body whose first value is not negative starts with a data
      line, so reading resumes at its very start. */
  lemma GridStartsWithData(vs: seq<Int16>, ncols: nat)
    requires ncols > 0 && |vs| > 0 && (|vs| - 1) % ncols == ncols - 1 && vs[0] >= 0
    ensures Skip(GridFrom(vs, ncols, 0)) == At(0)
  {
    var g := GridFrom(vs, ncols, 0);
    var r := Render(vs[0]);
    GridEnds(vs, ncols, 0);
    assert g[0] == r[0];
    FindIsFirst(g, '\n');
    var e := Find(g, '\n');
    assert e < |g|;
    assert e > 0;
    assert g[..e][0] == g[0];
  }

  // ---------------------------------------------------------------------
  // Reading samples from comma-separated text

  /** One token of a comma-separated file as a sample. */
  function Converted(token: string, conversion: Conversion): (r: Result<Int16, TranscodeError>)
    ensures ParseInt(token).None? ==> r == Err(InvalidArgument(token))
    ensures conversion == Stod && r.Ok? ==> r.value == ParseInt(token).value
    ensures conversion == Stoi && r.Ok? ==> (r.value - ParseInt(token).value) % 65536 == 0
  {
    match ParseInt(token)
    case None => Err(InvalidArgument(token))
    case Some(n) =>
      if conversion == Stoi then
        if -2147483648 <= n < 2147483648 then Ok(Narrow(n)) else Err(OutOfRange(token))
      else
        if -32768 <= n < 32768 then Ok(n) else Err(UndefinedConversion(token))
  }

  /** The tokens converted and serialized in order; the first token that
      fails stops the conversion. */
  function ConvertAll(cells: seq<string>, conversion: Conversion, reverse: bool): (r: Result<seq<Int16>, TranscodeError>)
    ensures r.Ok? ==> |r.value| == |cells|
    decreases |cells|
  {
    if cells == [] then Ok([])
    else
      match ConvertAll(cells[..|cells| - 1], conversion, reverse)
      case Err(e) => Err(e)
      case Ok(vs) =>
        match Converted(cells[|cells| - 1], conversion)
        case Err(e) => Err(e)
        case Ok(v) => Ok(vs + [Serialized(v, reverse)])
  }

  /** One more token: converted and appended, unless something failed. */
  lemma ConvertSnoc(cells: seq<string>, cell: string, conversion: Conversion, reverse: bool)
    ensures ConvertAll(cells, conversion, reverse).Err? ==>
      ConvertAll(cells + [cell], conversion, reverse) == ConvertAll(cells, conversion, reverse)
    ensures ConvertAll(cells, conversion, reverse).Ok? && Converted(cell, conversion).Err? ==>
      ConvertAll(cells + [cell], conversion, reverse) == Err(Converted(cell, conversion).error)
    ensures ConvertAll(cells, conversion, reverse).Ok? && Converted(cell, conversion).Ok? ==>
      ConvertAll(cells + [cell], conversion, reverse)
      == Ok(ConvertAll(cells, conversion, reverse).value + [Serialized(Converted(cell, conversion).value, reverse)])
  {
    var all := cells + [cell];
    assert all[..|all| - 1] == cells && all[|all| - 1] == cell;
  }

  /** Once a token has failed, later tokens change nothing. */
  lemma {:induction false} ConvertAllStops(cells: seq<string>, more: seq<string>, conversion: Conversion, reverse: bool)
    requires ConvertAll(cells, conversion, reverse).Err?
    ensures ConvertAll(cells + more, conversion, reverse) == ConvertAll(cells, conversion, reverse)
    decreases |more|
  {
    if more == [] {
      assert cells + more == cells;
    } else {
      var init := more[..|more| - 1];
      ConvertAllStops(cells, init, conversion, reverse);
      assert (cells + more)[..|cells + more| - 1] == cells + init;
    }
  }

  /** Written samples convert back to themselves, passed through
      `serialize`. */
  lemma {:induction false} ConvertRendered(vs: seq<Int16>, conversion: Conversion, reverse: bool)
    ensures ConvertAll(RenderAll(vs), conversion, reverse) == Ok(SerializeAll(vs, reverse))
    decreases |vs|
  {
    if vs != [] {
      var n := |vs| - 1;
      ConvertRendered(vs[..n], conversion, reverse);
      RenderAllInit(vs);
      ParseRender(vs[n]);
      SerializeAllSnoc(vs);
    }
  }

  lemma RenderAllInit(vs: seq<int>)
    requires vs != []
    ensures RenderAll(vs)[..|vs| - 1] == RenderAll(vs[..|vs| - 1])
    ensures RenderAll(vs)[|vs| - 1] == Render(vs[|vs| - 1])
  {
  }

  lemma SerializeAllSnoc(vs: seq<Int16>)
    requires vs != []
    ensures forall reverse: bool :: SerializeAll(vs[..|vs| - 1], reverse) + [Serialized(vs[|vs| - 1], reverse)] == SerializeAll(vs, reverse)
  {
  }

  lemma {:induction false} CellsOfLinesAppend(a: seq<string>, b: seq<string>)
    ensures CellsOfLines(a + b) == CellsOfLines(a) + CellsOfLines(b)
    decreases |a|
  {
    if a == [] {
      assert a + b == b;
    } else {
      assert (a + b)[1..] == a[1..] + b;
      CellsOfLinesAppend(a[1..], b);
    }
  }

  lemma CellsOfOne(line: string)
    ensures CellsOfLines([line]) == Pieces(line, ',')
  {
    assert [line][1..] == [];
  }

  lemma CellsOfLinesSnoc(lines: seq<string>, k: nat)
    requires k < |lines|
    ensures CellsOfLines(lines[..k + 1]) == CellsOfLines(lines[..k]) + Pieces(lines[k], ',')
  {
    assert lines[..k + 1] == lines[..k] + [lines[k]];
    CellsOfLinesAppend(lines[..k], [lines[k]]);
    CellsOfOne(lines[k]);
  }

  lemma CellsOfLinesSplit(lines: seq<string>, k: nat)
    requires k < |lines|
    ensures CellsOfLines(lines) == CellsOfLines(lines[..k]) + Pieces(lines[k], ',') + CellsOfLines(lines[k + 1..])
  {
    CellsOfLinesSnoc(lines, k);
    TakeDrop(lines, k + 1);
    CellsOfLinesAppend(lines[..k + 1], lines[k + 1..]);
  }

  lemma TakeDrop<T>(s: seq<T>, n: nat)
    requires n <= |s|
    ensures s[..n] + s[n..] == s
  {
  }

  /** A token that converts adds its serialized sample. */
  lemma ConvertStep(before: seq<string>, tokens: seq<string>, j: nat, conversion: Conversion, reverse: bool, values: seq<Int16>)
    requires j < |tokens|
    requires ConvertAll(before + tokens[..j], conversion, reverse) == Ok(values)
    requires Converted(tokens[j], conversion).Ok?
    ensures ConvertAll(before + tokens[..j + 1], conversion, reverse)
         == Ok(values + [Serialized(Converted(tokens[j], conversion).value, reverse)])
  {
    assert before + tokens[..j + 1] == (before + tokens[..j]) + [tokens[j]];
    ConvertSnoc(before + tokens[..j], tokens[j], conversion, reverse);
  }

  /** The failing token `cells[j]` decides the whole conversion. */
  lemma FailureDecides(before: seq<string>, tokens: seq<string>, j: nat, after: seq<string>, conversion: Conversion, reverse: bool)
    requires j < |tokens|
    requires ConvertAll(before + tokens[..j], conversion, reverse).Ok?
    requires Converted(tokens[j], conversion).Err?
    ensures ConvertAll(before + tokens + after, conversion, reverse) == Err(Converted(tokens[j], conversion).error)
  {
    var head := before + tokens[..j + 1];
    TokensSplit(before, tokens, j, after);
    ConvertSnoc(before + tokens[..j], tokens[j], conversion, reverse);
    ConvertAllStops(head, tokens[j + 1..] + after, conversion, reverse);
  }

  lemma TokensSplit(before: seq<string>, tokens: seq<string>, j: nat, after: seq<string>)
    requires j < |tokens|
    ensures before + tokens[..j + 1] == (before + tokens[..j]) + [tokens[j]]
    ensures before + tokens + after == (before + tokens[..j + 1]) + (tokens[j + 1..] + after)
  {
    assert tokens == tokens[..j + 1] + tokens[j + 1..];
  }

  /** The reading loops of `create_dem_csv_bin`: each line, then each
      comma-separated token of it, converted and serialized. */
  method ReadCsv(text: string, conversion: Conversion, reverse: bool, native: Endian) returns (r: Result<seq<Int16>, TranscodeError>)
    ensures r == ConvertAll(Cells(text), conversion, reverse)
  {
    var lines := Pieces(text, '\n');
    var union := new Union16(native);
    var values := [];
    for k := 0 to |lines|
      invariant union.Valid()
      invariant ConvertAll(CellsOfLines(lines[..k]), conversion, reverse) == Ok(values)
    {
      var tokens := Pieces(lines[k], ',');
      var before := CellsOfLines(lines[..k]);
      assert before + tokens[..0] == before;
      for j := 0 to |tokens|
        invariant union.Valid()
        invariant ConvertAll(before + tokens[..j], conversion, reverse) == Ok(values)
      {
        match Converted(tokens[j], conversion) {
          case Err(e) =>
            CellsOfLinesSplit(lines, k);
            FailureDecides(before, tokens, j, CellsOfLines(lines[k + 1..]), conversion, reverse);
            return Err(e);
          case Ok(v) =>
            var w := union.Serialize(v, reverse);
            ConvertStep(before, tokens, j, conversion, reverse, values);
            values := values + [w];
        }
      }
      assert tokens[..|tokens|] == tokens;
      CellsOfLinesSnoc(lines, k);
    }
    assert lines[..|lines|] == lines;
    return Ok(values);
  }

  // ---------------------------------------------------------------------
  // Reading samples from a raw file

  /** The reading loop of `create_dem_bin_csv`: two bytes at a time into
      a sample in host order, then `serialize`. */
  method ReadBin(bytes: seq<Byte>, native: Endian, reverse: bool) returns (vs: seq<Int16>)
    ensures vs == SerializeAll(DecodeAs(bytes, native), reverse)
  {
    var union := new Union16(native);
    vs := [];
    var k := 0;
    while 2 * k + 2 <= |bytes|
      invariant union.Valid()
      invariant k <= |bytes| / 2 && |vs| == k
      invariant forall j :: 0 <= j < k ==> vs[j] == Serialized(DecodeAs(bytes, native)[j], reverse)
    {
      var value := ValueAs(bytes[2 * k], bytes[2 * k + 1], native);
      var w := union.Serialize(value, reverse);
      vs := vs + [w];
      k := k + 1;
    }
  }

  // ---------------------------------------------------------------------
  // Writing comma-separated text

  /** What the writing loop produces for `nrows` by `ncols` samples: the
      comma-separated rows, or a read past the end when there are fewer
      samples. */
  function Layout(vs: seq<Int16>, nrows: nat, ncols: nat): Result<string, TranscodeError> {
    var n := nrows * ncols;
    if n > |vs| then Err(UndefinedRead(|vs|))
    else if n == 0 then Ok("")
    else Ok(CsvText(vs[..n], ncols))
  }

  /** The writing loop: value `i` followed by a line feed when it ends a
      row, by a comma otherwise. */
  method WriteCsv(vs: seq<Int16>, nrows: nat, ncols: nat) returns (r: Result<string, TranscodeError>)
    ensures r == Layout(vs, nrows, ncols)
  {
    var n := nrows * ncols;
    if n == 0 {
      return Ok("");
    }
    FactorPositive(nrows, ncols);
    var m := if n <= |vs| then n else |vs|;
    var out := WriteValues(vs[..m], ncols);
    if m < n {
      return Err(UndefinedRead(|vs|));
    }
    return Ok(out);
  }

  lemma FactorPositive(nrows: nat, ncols: nat)
    requires nrows * ncols != 0
    ensures ncols > 0
  {
  }

  /** The body of the writing loop over the samples that exist. */
  method WriteValues(w: seq<int>, ncols: nat) returns (out: string)
    requires ncols > 0
    ensures out == CsvText(w, ncols)
  {
    out := "";
    var i := 0;
    while i < |w|
      invariant i <= |w|
      invariant out + CsvFrom(w, ncols, i) == CsvText(w, ncols)
    {
      CsvStep(out, w, ncols, i);
      out := out + Render(w[i]) + [Separator(i, ncols)];
      i := i + 1;
    }
    assert out + CsvFrom(w, ncols, i) == out;
  }

  lemma CsvStep(out: string, vs: seq<int>, ncols: nat, i: nat)
    requires ncols > 0 && i < |vs|
    ensures out + Render(vs[i]) + [Separator(i, ncols)] + CsvFrom(vs, ncols, i + 1) == out + CsvFrom(vs, ncols, i)
  {
    var a, b, c := Render(vs[i]), [Separator(i, ncols)], CsvFrom(vs, ncols, i + 1);
    assert out + a + b + c == out + (a + b + c);
  }

  /** Written samples read back as cells give the samples. */
  lemma LayoutReadsBack(vs: seq<Int16>, nrows: nat, ncols: nat, conversion: Conversion)
    requires ncols > 0 && nrows * ncols == |vs|
    ensures Layout(vs, nrows, ncols) == Ok(CsvText(vs, ncols))
    ensures ConvertAll(Cells(CsvText(vs, ncols)), conversion, false) == Ok(vs)
  {
    assert vs[..|vs|] == vs;
    CsvCellsOf(vs, nrows, ncols);
    ConvertRendered(vs, conversion, false);
    SerializeNothing(vs);
  }

  lemma CsvCellsOf(vs: seq<int>, nrows: nat, ncols: nat)
    requires ncols > 0 && nrows * ncols == |vs|
    ensures Cells(CsvText(vs, ncols)) == RenderAll(vs)
  {
    DivModUnique(|vs|, ncols, nrows, 0);
    CellsOfCsv(vs, ncols);
  }

  // ---------------------------------------------------------------------
  // Output paths

  /** `find_last_of(c)`: the position of the last `c`, if any. */
  function LastIndexOf(s: string, c: char): (r: Option<nat>)
    ensures r.Some? ==> r.value < |s| && s[r.value] == c && forall k :: r.value < k < |s| ==> s[k] != c
    ensures r.None? ==> forall k :: 0 <= k < |s| ==> s[k] != c
    decreases |s|
  {
    if s == [] then None
    else if s[|s| - 1] == c then Some(|s| - 1)
    else LastIndexOf(s[..|s| - 1], c)
  }

  lemma {:induction false} LastIndexOfAppend(p: string, s: string, c: char)
    requires forall k :: 0 <= k < |s| ==> s[k] != c
    ensures LastIndexOf(p + s, c) == LastIndexOf(p, c)
    decreases |s|
  {
    if s == [] {
      assert p + s == p;
    } else {
      var init := s[..|s| - 1];
      LastIndexOfAppend(p, init, c);
      assert (p + s)[..|p + s| - 1] == p + init;
    }
  }

  /** `generate_output_file_path` of the string-based variants and the
      output names of DEM.hpp: the path up to and including its last '.',
      then the extension; empty when the path holds no '.'. */
  function DotReplaced(path: string, ext: string): (out: string)
    ensures out == "" <==> forall k :: 0 <= k < |path| ==> path[k] != '.'
    ensures out != "" ==>
      var d := |out| - |ext|;
      0 < d <= |path| && out[d - 1] == '.' && out[..d] == path[..d] && out[d..] == ext
      && forall k :: d <= k < |path| ==> path[k] != '.'
  {
    match LastIndexOf(path, '.')
    case None => ""
    case Some(k) => path[..k + 1] + ext
  }

  /** Where the file name starts: after the last '/'. */
  function NameStart(path: string): (f: nat)
    ensures f <= |path|
    ensures forall k :: f <= k < |path| ==> path[k] != '/'
    ensures f > 0 ==> path[f - 1] == '/'
  {
    match LastIndexOf(path, '/')
    case None => 0
    case Some(k) => k + 1
  }

  /** Where `std::filesystem::path::extension` starts: at the last '.' of
      the file name, unless that '.' opens the name or the name is "..";
      the end of the path when there is no extension. */
  function ExtensionStart(path: string): (x: nat)
    ensures NameStart(path) <= x <= |path|
    ensures x < |path| ==> x > NameStart(path) && path[x] == '.'
    ensures forall k :: x < k < |path| ==> path[k] != '.'
  {
    var f := NameStart(path);
    var name := path[f..];
    match LastIndexOf(name, '.')
    case Some(d) => if d > 0 && name != ".." then f + d else |path|
    case None => |path|
  }

  /** `replace_extension("." + ext)`: the extension, if any, replaced by
      the new one, and the new one appended otherwise. */
  function ExtensionReplaced(path: string, ext: string): string {
    path[..ExtensionStart(path)] + "." + ext
  }

  function OutputPath(naming: Naming, path: string, ext: string): string {
    match naming
    case ReplaceExtension => ExtensionReplaced(path, ext)
    case AfterLastDot => DotReplaced(path, ext)
  }

  predicate PlainExtension(ext: string) {
    ext != [] && forall k :: 0 <= k < |ext| ==> ext[k] != '.' && ext[k] != '/'
  }

  /** The output of `replace_extension` stays in the input's directory and
      ends with the new extension. */
  lemma ExtensionReplacedKeepsDirectory(path: string, ext: string)
    requires PlainExtension(ext)
    ensures var out := ExtensionReplaced(path, ext);
      NameStart(out) == NameStart(path) && out[..NameStart(path)] == path[..NameStart(path)]
      && out[|out| - |ext| - 1..] == "." + ext
  {
    var x, f := ExtensionStart(path), NameStart(path);
    var out := ExtensionReplaced(path, ext);
    assert out == path[..x] + ("." + ext);
    LastIndexOfAppend(path[..x], "." + ext, '/');
    assert path == path[..x] + path[x..];
    LastIndexOfAppend(path[..x], path[x..], '/');
  }

  /** Renaming twice is renaming once with the last extension: the file
      `replace_extension` names for a ".bin" output, renamed for ".csv",
      is the ".csv" name of the original. */
  lemma ExtensionReplacedTwice(path: string, e1: string, e2: string)
    requires PlainExtension(e1)
    requires path != [] && path[|path| - 1] != '/'
    ensures ExtensionReplaced(ExtensionReplaced(path, e1), e2) == ExtensionReplaced(path, e2)
  {
    var x, f := ExtensionStart(path), NameStart(path);
    var out := ExtensionReplaced(path, e1);
    ExtensionReplacedKeepsDirectory(path, e1);
    assert LastIndexOf(path, '/') == LastIndexOf(path[..|path| - 1], '/');
    assert f < |path|;
    var stem := path[f..x];
    assert out[f..] == stem + "." + e1;
    LastIndexOfAppend(stem + ".", e1, '.');
    assert LastIndexOf(stem + ".", '.') == Some(|stem|);
    assert |stem| > 0;
    assert |out[f..]| >= 3;
    assert ExtensionStart(out) == x;
    assert out[..x] == path[..x];
  }

  /** The string-based renaming, applied twice, keeps only the last
      extension, provided the path holds a '.'. */
  lemma DotReplacedTwice(path: string, e1: string, e2: string)
    requires PlainExtension(e1)
    requires exists k :: 0 <= k < |path| && path[k] == '.'
    ensures DotReplaced(DotReplaced(path, e1), e2) == DotReplaced(path, e2)
  {
    var k :| 0 <= k < |path| && path[k] == '.';
    var i := LastIndexOf(path, '.').value;
    var head := path[..i + 1];
    LastIndexOfAppend(head, e1, '.');
    assert LastIndexOf(head, '.') == Some(i);
    assert (head + e1)[..i + 1] == head;
  }

  /** Renaming `a.b/c` shows the difference: the string-based variants
      cut at the '.' of the directory, `replace_extension` does not. */
  lemma DotReplacedLeavesDirectory()
    ensures DotReplaced("a.b/c", "bin") == "a.bin"
    ensures ExtensionReplaced("a.b/c", "bin") == "a.b/c.bin"
  {
    var p := "a.b/c";
    assert p[..4] == "a.b/" && "a.b/"[..3] == "a.b" && "a.b"[..2] == "a.";
    assert LastIndexOf("a.", '.') == Some(1);
    assert LastIndexOf("a.b", '.') == Some(1);
    assert LastIndexOf("a.b/", '.') == Some(1);
    assert LastIndexOf(p, '.') == Some(1);
    assert LastIndexOf(p, '/') == Some(3);
    assert p[4..] == "c" && "c"[..0] == "";
    assert LastIndexOf("c", '.') == None;
  }

  // ---------------------------------------------------------------------
  // The converters

  /** The text of a file as its stream reads it: its bytes as characters,
      nothing when it does not open. */
  function TextOf(fs: FileSystem, path: string): string {
    if path in fs.contents then
      var bytes := fs.contents[path];
      seq(|bytes|, k requires 0 <= k < |bytes| => bytes[k] as char)
    else ""
  }

  function BytesIn(fs: FileSystem, path: string): seq<Byte> {
    if path in fs.contents then fs.contents[path] else []
  }

  /** The variant's check on the input passes. */
  predicate Admitted(check: InputCheck, fs: FileSystem, path: string) {
    match check
    case PathExists => Exists(fs, path)
    case StreamGood => Opens(fs, path)
    case Unchecked => true
  }

  /** The file system after a raw file is written; an empty path does not
      open, and nothing is written. */
  function Stored(fs: FileSystem, out: Output<seq<Byte>>): FileSystem {
    if out.path == "" then fs
    else FileSystem(fs.present + {out.path}, fs.contents[out.path := out.content], fs.listings)
  }

  /** `create_dem_asc_bin` */
  function AscBin(v: Variant, fs: FileSystem, path: string, native: Endian): Result<Output<seq<Byte>>, TranscodeError> {
    if !Admitted(v.check, fs, path) then Err(NotFound(path))
    else
      var text := TextOf(fs, path);
      var vs := SerializeAll(Values(text, HeaderEnd(v.skip, text)), v.reverse);
      Ok(Output(OutputPath(v.naming, path, "bin"), EncodeAs(vs, native)))
  }

  /** `create_dem_asc_csv` */
  function AscCsv(v: Variant, fs: FileSystem, path: string, nrows: nat, ncols: nat): Result<Output<string>, TranscodeError> {
    if !Admitted(v.check, fs, path) then Err(NotFound(path))
    else
      var text := TextOf(fs, path);
      match Layout(Values(text, HeaderEnd(v.skip, text)), nrows, ncols)
      case Err(e) => Err(e)
      case Ok(csv) => Ok(Output(OutputPath(v.naming, path, "csv"), csv))
  }

  /** `create_dem_csv_bin` */
  function CsvBin(v: Variant, fs: FileSystem, path: string, native: Endian): Result<Output<seq<Byte>>, TranscodeError> {
    if !Admitted(v.check, fs, path) then Err(NotFound(path))
    else
      match ConvertAll(Cells(TextOf(fs, path)), v.conversion, v.reverse)
      case Err(e) => Err(e)
      case Ok(vs) => Ok(Output(OutputPath(v.naming, path, "bin"), EncodeAs(vs, native)))
  }

  /** `create_dem_bin_csv` */
  function BinCsv(v: Variant, fs: FileSystem, path: string, nrows: nat, ncols: nat, native: Endian): Result<Output<string>, TranscodeError> {
    if !Admitted(v.check, fs, path) then Err(NotFound(path))
    else
      match Layout(SerializeAll(DecodeAs(BytesIn(fs, path), native), v.reverse), nrows, ncols)
      case Err(e) => Err(e)
      case Ok(csv) => Ok(Output(OutputPath(v.naming, path, "csv"), csv))
  }

  method AscToBin(v: Variant, fs: FileSystem, path: string, native: Endian) returns (r: Result<Output<seq<Byte>>, TranscodeError>)
    ensures r == AscBin(v, fs, path, native)
  {
    if !Admitted(v.check, fs, path) {
      return Err(NotFound(path));
    }
    var text := TextOf(fs, path);
    var start := SkipHeader(v.skip, text);
    var vs := ReadValues(text, start, v.reverse, native);
    return Ok(Output(OutputPath(v.naming, path, "bin"), EncodeAs(vs, native)));
  }

  method AscToCsv(v: Variant, fs: FileSystem, path: string, nrows: nat, ncols: nat, native: Endian) returns (r: Result<Output<string>, TranscodeError>)
    ensures r == AscCsv(v, fs, path, nrows, ncols)
  {
    if !Admitted(v.check, fs, path) {
      return Err(NotFound(path));
    }
    var text := TextOf(fs, path);
    var start := SkipHeader(v.skip, text);
    var vs := ReadValues(text, start, false, native);
    SerializeNothing(Values(text, start));
    var csv := WriteCsv(vs, nrows, ncols);
    match csv {
      case Err(e) => return Err(e);
      case Ok(s) => return Ok(Output(OutputPath(v.naming, path, "csv"), s));
    }
  }

  method CsvToBin(v: Variant, fs: FileSystem, path: string, native: Endian) returns (r: Result<Output<seq<Byte>>, TranscodeError>)
    ensures r == CsvBin(v, fs, path, native)
  {
    if !Admitted(v.check, fs, path) {
      return Err(NotFound(path));
    }
    var vs := ReadCsv(TextOf(fs, path), v.conversion, v.reverse, native);
    match vs {
      case Err(e) => return Err(e);
      case Ok(values) => return Ok(Output(OutputPath(v.naming, path, "bin"), EncodeAs(values, native)));
    }
  }

  method BinToCsv(v: Variant, fs: FileSystem, path: string, nrows: nat, ncols: nat, native: Endian) returns (r: Result<Output<string>, TranscodeError>)
    ensures r == BinCsv(v, fs, path, nrows, ncols, native)
  {
    if !Admitted(v.check, fs, path) {
      return Err(NotFound(path));
    }
    var vs := ReadBin(BytesIn(fs, path), native, v.reverse);
    var csv := WriteCsv(vs, nrows, ncols);
    match csv {
      case Err(e) => return Err(e);
      case Ok(s) => return Ok(Output(OutputPath(v.naming, path, "csv"), s));
    }
  }

  // ---------------------------------------------------------------------
  // What the converters promise

  /** A variant that checks its input refuses a missing one, in all four
      converters; one that does not check reads an empty input. */
  lemma MissingInput(v: Variant, fs: FileSystem, path: string, nrows: nat, ncols: nat, native: Endian)
    requires path !in fs.present && path !in fs.contents
    ensures v.check != Unchecked ==>
      AscBin(v, fs, path, native) == Err(NotFound(path)) && AscCsv(v, fs, path, nrows, ncols) == Err(NotFound(path))
      && CsvBin(v, fs, path, native) == Err(NotFound(path)) && BinCsv(v, fs, path, nrows, ncols, native) == Err(NotFound(path))
    ensures v.check == Unchecked ==>
      AscBin(v, fs, path, native) == Ok(Output(OutputPath(v.naming, path, "bin"), []))
      && CsvBin(v, fs, path, native) == Ok(Output(OutputPath(v.naming, path, "bin"), []))
      && (nrows * ncols > 0 ==> BinCsv(v, fs, path, nrows, ncols, native) == Err(UndefinedRead(0)))
  {
    if v.check == Unchecked {
      assert TextOf(fs, path) == "";
      assert ScanInt("", 0).None?;
      assert Pieces("", '\n') == [];
      match v.skip {
        case Dynamic =>
        case FixedLines(count) =>
          if count > 0 {
            assert AfterLines("", count) == Lost;
          }
      }
    }
  }

  /** `std::stoi` then the cast keeps a written `int` modulo 2^16; with
      `std::stod`, a value the sample type cannot hold is undefined. */
  lemma ConversionsOfRendered(n: int)
    ensures Converted(Render(n), Stoi)
         == if -2147483648 <= n < 2147483648 then Ok(Narrow(n)) else Err(OutOfRange(Render(n)))
    ensures Converted(Render(n), Stod)
         == if -32768 <= n < 32768 then Ok(n) else Err(UndefinedConversion(Render(n)))
    ensures Converted(Render(40000), Stoi) == Ok(-25536)
  {
    ParseRender(n);
    ParseRender(40000);
  }

  /** csv to bin and back: a comma-separated grid of `nrows` complete rows
      written as a raw file and converted back gives the same text, for
      every variant and either byte order, because the same `serialize`
      is applied on the way in and on the way out. */
  lemma CsvRoundTrip(v: Variant, fs: FileSystem, path: string, vs: seq<Int16>, nrows: nat, ncols: nat, native: Endian)
    requires ncols > 0 && nrows * ncols == |vs|
    requires Admitted(v.check, fs, path) && TextOf(fs, path) == CsvText(vs, ncols)
    requires OutputPath(v.naming, path, "bin") != ""
    ensures CsvBin(v, fs, path, native).Ok?
    ensures var out := CsvBin(v, fs, path, native).value;
      BinCsv(v, Stored(fs, out), out.path, nrows, ncols, native)
      == Ok(Output(OutputPath(v.naming, out.path, "csv"), CsvText(vs, ncols)))
  {
    CsvCellsOf(vs, nrows, ncols);
    ConvertRendered(vs, v.conversion, v.reverse);
    var out := CsvBin(v, fs, path, native).value;
    assert out.content == EncodeAs(SerializeAll(vs, v.reverse), native);
    var fs2 := Stored(fs, out);
    assert Admitted(v.check, fs2, out.path) && BytesIn(fs2, out.path) == out.content;
    DecodeEncode(SerializeAll(vs, v.reverse), native);
    SerializeAllInvolution(vs, v.reverse);
    LayoutReadsBack(vs, nrows, ncols, Stoi);
  }

  /** asc to bin to csv gives what asc to csv gives: the samples pass
      through `serialize` twice, whatever the host and requested order. */
  lemma AscBinCsvAgree(v: Variant, fs: FileSystem, path: string, nrows: nat, ncols: nat, native: Endian)
    requires Admitted(v.check, fs, path) && OutputPath(v.naming, path, "bin") != ""
    ensures AscBin(v, fs, path, native).Ok?
    ensures var out := AscBin(v, fs, path, native).value;
      var b := BinCsv(v, Stored(fs, out), out.path, nrows, ncols, native);
      var a := AscCsv(v, fs, path, nrows, ncols);
      (a.Ok? <==> b.Ok?) && (a.Ok? ==> a.value.content == b.value.content) && (a.Err? ==> a.error == b.error)
  {
    var text := TextOf(fs, path);
    var vs := Values(text, HeaderEnd(v.skip, text));
    DecodeEncode(SerializeAll(vs, v.reverse), native);
    SerializeAllInvolution(vs, v.reverse);
  }

  /** asc to csv: an ASCII grid of `nrows` by `ncols` samples is written
      out unchanged, with no byte-order step. `dynamic_metadata_skip` finds
      the grid after any header of non-data lines when its first sample is
      not negative; a fixed skip needs exactly its number of header lines. */
  lemma AscCsvRoundTrip(v: Variant, fs: FileSystem, path: string, header: seq<string>, vs: seq<Int16>, nrows: nat, ncols: nat)
    requires nrows > 0 && ncols > 0 && nrows * ncols == |vs|
    requires forall i :: 0 <= i < |header| ==> NoLineFeed(header[i])
    requires v.skip == Dynamic ==> vs[0] >= 0 && forall i :: 0 <= i < |header| ==> !DataLine(header[i])
    requires v.skip.FixedLines? ==> v.skip.count == |header|
    requires Admitted(v.check, fs, path) && TextOf(fs, path) == Terminated(header) + GridFrom(vs, ncols, 0)
    ensures AscCsv(v, fs, path, nrows, ncols) == Ok(Output(OutputPath(v.naming, path, "csv"), CsvText(vs, ncols)))
  {
    RowsComplete(nrows, ncols);
    GridAfterHeader(v.skip, header, vs, ncols);
    LayoutReadsBack(vs, nrows, ncols, Stoi);
  }

  /** The last sample of `nrows` complete rows ends a row. */
  lemma RowsComplete(nrows: nat, ncols: nat)
    requires nrows > 0 && ncols > 0
    ensures (nrows * ncols - 1) % ncols == ncols - 1
  {
    assert nrows * ncols - 1 == (nrows - 1) * ncols + (ncols - 1);
    DivModUnique(nrows * ncols - 1, ncols, nrows - 1, ncols - 1);
  }

  /** The samples of a grid body behind a header are read back, whichever
      way the header is passed over. */
  lemma GridAfterHeader(skip: HeaderSkip, header: seq<string>, vs: seq<Int16>, ncols: nat)
    requires ncols > 0 && |vs| > 0 && (|vs| - 1) % ncols == ncols - 1
    requires forall i :: 0 <= i < |header| ==> NoLineFeed(header[i])
    requires skip == Dynamic ==> vs[0] >= 0 && forall i :: 0 <= i < |header| ==> !DataLine(header[i])
    requires skip.FixedLines? ==> skip.count == |header|
    ensures var text := Terminated(header) + GridFrom(vs, ncols, 0);
      Values(text, HeaderEnd(skip, text)) == vs
  {
    var t, g := Terminated(header), GridFrom(vs, ncols, 0);
    match skip {
      case Dynamic =>
        SkipPastHeader(header, g);
        GridStartsWithData(vs, ncols);
      case FixedLines(count) =>
        LinesSkipped(header, g, count);
    }
    assert (t + g)[|t|..] == g;
    ExtractedGrid(vs, ncols, 0);
    assert vs[0..] == vs;
  }
}
