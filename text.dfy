/** Character-level text handling shared by the tile readers and the
    transcoders: decimal integers as `std::stoi` and `operator>>` read them
    and as `operator<<` writes them, `std::getline` splitting, and the
    comma-separated layout the transcoders write. */
module Text {
  import opened Wrappers

  predicate IsDigit(c: char) {
    '0' <= c <= '9'
  }

  /** `std::isspace` in the "C" locale: space, tab, line feed, vertical
      tab, form feed and carriage return. */
  predicate IsSpace(c: char) {
    c == ' ' || '\t' <= c <= '\r'
  }

  predicate AllDigits(s: string) {
    forall i :: 0 <= i < |s| ==> IsDigit(s[i])
  }

  function DigitChar(d: nat): (c: char)
    requires d < 10
    ensures IsDigit(c)
  {
    ('0' as int + d) as char
  }

  function DigitValue(c: char): (d: nat)
    requires IsDigit(c)
    ensures d < 10 && DigitChar(d) == c
  {
    c as int - '0' as int
  }

  /** The decimal digits of `n`, most significant first, without leading
      zeros. */
  function DigitsOf(n: nat): (s: string)
    ensures |s| > 0 && AllDigits(s)
  {
    if n < 10 then [DigitChar(n)] else DigitsOf(n / 10) + [DigitChar(n % 10)]
  }

  /** The number a run of decimal digits denotes. */
  function ValueOfDigits(s: string): nat
    requires AllDigits(s)
  {
    if s == [] then 0 else ValueOfDigits(s[..|s| - 1]) * 10 + DigitValue(s[|s| - 1])
  }

  lemma {:induction false} DigitsRoundTrip(n: nat)
    ensures ValueOfDigits(DigitsOf(n)) == n
  {
    if n >= 10 {
      var s := DigitsOf(n);
      assert s[..|s| - 1] == DigitsOf(n / 10);
      DigitsRoundTrip(n / 10);
    }
  }

  /** An integer as `operator<<` writes it: a minus sign for negative
      values, then the digits. */
  function Render(v: int): (s: string)
    ensures |s| > 0 && (IsDigit(s[0]) || s[0] == '-')
    ensures forall i :: 0 < i < |s| ==> IsDigit(s[i])
    ensures forall i :: 0 <= i < |s| ==> s[i] != ',' && s[i] != '\n' && !IsSpace(s[i])
  {
    if v < 0 then "-" + DigitsOf(-v) else DigitsOf(v)
  }

  /** The first position at or after `i` whose character fails `IsSpace`. */
  function SkipSpace(s: string, i: nat): (j: nat)
    requires i <= |s|
    ensures i <= j <= |s|
    ensures forall k :: i <= k < j ==> IsSpace(s[k])
    ensures j < |s| ==> !IsSpace(s[j])
    decreases |s| - i
  {
    if i == |s| || !IsSpace(s[i]) then i else SkipSpace(s, i + 1)
  }

  /** The end of the run of digits starting at `i`. */
  function DigitRun(s: string, i: nat): (j: nat)
    requires i <= |s|
    ensures i <= j <= |s|
    ensures AllDigits(s[i..j])
    ensures j < |s| ==> !IsDigit(s[j])
    decreases |s| - i
  {
    if i == |s| || !IsDigit(s[i]) then i else DigitRun(s, i + 1)
  }

  /** A decimal integer read from position `i` as the standard library's
      numeric extraction reads it: leading white space skipped, an optional
      sign, then at least one digit. The result is the value and the
      position after its last digit, or `None` when no digit follows. */
  function ScanInt(s: string, i: nat): (r: Option<(int, nat)>)
    requires i <= |s|
    ensures r.Some? ==> i < r.value.1 <= |s| && IsDigit(s[r.value.1 - 1])
    ensures r.Some? ==> r.value.1 == |s| || !IsDigit(s[r.value.1])
  {
    var a := SkipSpace(s, i);
    var neg := a < |s| && s[a] == '-';
    var b := if a < |s| && (s[a] == '-' || s[a] == '+') then a + 1 else a;
    var e := DigitRun(s, b);
    if e == b then None
    else
      var n: int := ValueOfDigits(s[b..e]);
      var v := if neg then -n else n;
      Some((v, e))
  }

  /** `std::stoi(s)`, and `istringstream(s) >> n` on success: the integer
      at the head of `s`; whatever follows the digits is ignored. `None`
      is the `std::invalid_argument` case (no digits). */
  function ParseInt(s: string): (r: Option<int>)
    ensures r.Some? <==> ScanInt(s, 0).Some?
  {
    match ScanInt(s, 0)
    case None => None
    case Some((v, _)) => Some(v)
  }

  /** `std::stoi` reads back what `operator<<` wrote. */
  lemma ParseRender(v: int)
    ensures ParseInt(Render(v)) == Some(v)
  {
    ParseRenderThen(v, []);
    assert Render(v) + [] == Render(v);
  }

  /** Reading a number that starts the text: an optional sign at position
      0, then the digits up to position `n`, which a non-digit or the end
      of the text follows. */
  lemma ScanSigned(s: string, b: nat, n: nat)
    requires 0 < |s| && !IsSpace(s[0])
    requires b == (if s[0] == '-' || s[0] == '+' then 1 else 0)
    requires b < n <= |s| && AllDigits(s[b..n]) && (n == |s| || !IsDigit(s[n]))
    ensures ScanInt(s, 0)
         == Some((if s[0] == '-' then -(ValueOfDigits(s[b..n]) as int) else ValueOfDigits(s[b..n]) as int, n))
  {
    assert SkipSpace(s, 0) == 0;
    DigitRunStops(s, b, n);
  }

  lemma {:induction false} DigitRunToEnd(s: string, i: nat)
    requires i <= |s| && AllDigits(s[i..])
    ensures DigitRun(s, i) == |s|
    decreases |s| - i
  {
    if i < |s| {
      assert s[i] == s[i..][0];
      assert s[i + 1..] == s[i..][1..];
      DigitRunToEnd(s, i + 1);
    }
  }

  /** A digit run that is followed by a non-digit ends there. */
  lemma {:induction false} DigitRunStops(s: string, i: nat, n: nat)
    requires i <= n <= |s| && AllDigits(s[i..n])
    requires n == |s| || !IsDigit(s[n])
    ensures DigitRun(s, i) == n
    decreases n - i
  {
    if i < n {
      assert s[i] == s[i..n][0];
      assert s[i + 1..n] == s[i..n][1..];
      DigitRunStops(s, i + 1, n);
    }
  }

  /** A written integer followed by text that does not start with a digit
      reads back as that integer: the rest is not consumed. */
  lemma {:induction false} ParseRenderThen(v: int, rest: string)
    requires rest == [] || !IsDigit(rest[0])
    ensures ScanInt(Render(v) + rest, 0) == Some((v, |Render(v)|))
    ensures ParseInt(Render(v) + rest) == Some(v)
  {
    var w := Render(v);
    var s := w + rest;
    var n := |w|;
    assert s[0] == w[0] && !IsSpace(s[0]);
    assert n == |s| || s[n] == rest[0];
    var b := if v < 0 then 1 else 0;
    var d := if v < 0 then DigitsOf(-v) else DigitsOf(v);
    assert s[b..n] == d;
    ScanSigned(s, b, n);
    DigitsRoundTrip(if v < 0 then -v else v);
  }

  /** The position of the first `c` in `s`, or `|s|` when there is none. */
  function Find(s: string, c: char): (k: nat)
    ensures k <= |s|
    ensures k < |s| ==> s[k] == c
  {
    if s == [] || s[0] == c then 0 else 1 + Find(s[1..], c)
  }

  /** No `c` comes before the one `Find` reports. */
  lemma {:induction false} FindIsFirst(s: string, c: char)
    ensures forall i :: 0 <= i < Find(s, c) ==> s[i] != c
    decreases |s|
  {
    if s != [] && s[0] != c {
      FindIsFirst(s[1..], c);
    }
  }

  /** The strings that repeated `std::getline(stream, piece, sep)` yields:
      the text between separators, where a final separator does not start
      an empty piece and the empty text yields nothing. */
  function Pieces(s: string, sep: char): (ps: seq<string>)
    ensures s != [] ==> |ps| > 0
    decreases |s|
  {
    if s == [] then []
    else
      var k := Find(s, sep);
      [s[..k]] + (if k == |s| then [] else Pieces(s[k + 1..], sep))
  }

  /** A text that does not contain the separator is one piece. */
  lemma {:induction false} PiecesOfPlain(s: string, sep: char)
    requires s != [] && forall i :: 0 <= i < |s| ==> s[i] != sep
    ensures Pieces(s, sep) == [s]
  {
    var k := Find(s, sep);
    assert k == |s|;
    assert s[..k] == s;
  }

  /** Splitting at the first separator. */
  lemma {:induction false} PiecesOfJoin(a: string, sep: char, rest: string)
    requires forall i :: 0 <= i < |a| ==> a[i] != sep
    ensures Pieces(a + [sep] + rest, sep) == [a] + Pieces(rest, sep)
  {
    var s := a + [sep] + rest;
    FindAfterPlain(a, sep, [sep] + rest);
    assert s == a + ([sep] + rest);
    assert Find(s, sep) == |a|;
    assert s[..|a|] == a;
    assert s[|a| + 1..] == rest;
  }

  /** Putting separator-free text in front of a text extends its first
      piece only. */
  lemma {:induction false} PiecesOfPrefix(p: string, sep: char, t: string)
    requires t != []
    requires forall i :: 0 <= i < |p| ==> p[i] != sep
    ensures Pieces(p + t, sep) == [p + Pieces(t, sep)[0]] + Pieces(t, sep)[1..]
  {
    var k := Find(t, sep);
    FindIsFirst(t, sep);
    if k == |t| {
      PiecesOfPlain(t, sep);
      NoSeparatorInJoin(p, t, sep);
      PiecesOfPlain(p + t, sep);
      ConsParts(t, []);
    } else {
      var a, rest := t[..k], t[k + 1..];
      assert t == a + [sep] + rest;
      PiecesOfJoin(a, sep, rest);
      ConsParts(a, Pieces(rest, sep));
      assert p + t == (p + a) + [sep] + rest;
      NoSeparatorInJoin(p, a, sep);
      PiecesOfJoin(p + a, sep, rest);
    }
  }

  lemma NoSeparatorInJoin(p: string, a: string, sep: char)
    requires forall i :: 0 <= i < |p| ==> p[i] != sep
    requires forall i :: 0 <= i < |a| ==> a[i] != sep
    ensures forall i :: 0 <= i < |p + a| ==> (p + a)[i] != sep
  {
  }

  lemma ConsParts<T>(x: T, tail: seq<T>)
    ensures ([x] + tail)[0] == x && ([x] + tail)[1..] == tail
  {
  }

  lemma {:induction false} FindAfterPlain(p: string, sep: char, t: string)
    requires forall i :: 0 <= i < |p| ==> p[i] != sep
    ensures Find(p + t, sep) == |p| + Find(t, sep)
    decreases |p|
  {
    if p != [] {
      assert (p + t)[1..] == p[1..] + t;
      FindAfterPlain(p[1..], sep, t);
    } else {
      assert p + t == t;
    }
  }

  /** A text made of a part without `sep`, `sep` and a tail splits at
      its first `sep` back into the two. */
  lemma SplitAtFirst(p: string, sep: char, t: string)
    requires forall i :: 0 <= i < |p| ==> p[i] != sep
    ensures Find(p + [sep] + t, sep) == |p|
    ensures (p + [sep] + t)[..|p|] == p && (p + [sep] + t)[|p| + 1..] == t
  {
    assert p + [sep] + t == p + ([sep] + t);
    FindAfterPlain(p, sep, [sep] + t);
  }

  /** The cells of a comma-separated text: its lines, each split at
      commas, in order. */
  function Cells(text: string): seq<string> {
    CellsOfLines(Pieces(text, '\n'))
  }

  function CellsOfLines(lines: seq<string>): seq<string> {
    if lines == [] then [] else Pieces(lines[0], ',') + CellsOfLines(lines[1..])
  }

  /** What the transcoders write after the `i`-th value of a grid with
      `ncols` columns: a line break after the last value of a row, a comma
      otherwise. */
  function Separator(i: nat, ncols: nat): char
    requires ncols > 0
  {
    if i % ncols == ncols - 1 then '\n' else ','
  }

  /** The comma-separated text of the values from `i` on, each followed by
      its separator. */
  function CsvFrom(vs: seq<int>, ncols: nat, i: nat): string
    requires ncols > 0 && i <= |vs|
    decreases |vs| - i
  {
    if i == |vs| then "" else Render(vs[i]) + [Separator(i, ncols)] + CsvFrom(vs, ncols, i + 1)
  }

  /** The comma-separated text of a whole grid, as the writing loops of
      the transcoders produce it. */
  function CsvText(vs: seq<int>, ncols: nat): string
    requires ncols > 0
  {
    CsvFrom(vs, ncols, 0)
  }

  function RenderAll(vs: seq<int>): (ss: seq<string>)
    ensures |ss| == |vs|
    ensures forall i :: 0 <= i < |vs| ==> ss[i] == Render(vs[i])
  {
    seq(|vs|, i requires 0 <= i < |vs| => Render(vs[i]))
  }

  /** Splitting the written text back into lines and cells yields exactly
      the rendered values, whatever the number of columns, provided the
      text ends with a complete row. */
  lemma {:induction false} CellsOfCsv(vs: seq<int>, ncols: nat)
    requires ncols > 0 && |vs| % ncols == 0
    ensures Cells(CsvText(vs, ncols)) == RenderAll(vs)
  {
    CellsOfCsvFrom(vs, ncols, 0);
    assert vs[0..] == vs;
  }

  lemma {:induction false} CellsOfCsvFrom(vs: seq<int>, ncols: nat, i: nat)
    requires ncols > 0 && |vs| % ncols == 0 && i <= |vs|
    ensures Cells(CsvFrom(vs, ncols, i)) == RenderAll(vs[i..])
    decreases |vs| - i
  {
    if i == |vs| {
      assert Pieces("", '\n') == [];
    } else {
      var x := Render(vs[i]);
      var rest := CsvFrom(vs, ncols, i + 1);
      CellsOfCsvFrom(vs, ncols, i + 1);
      RenderAllStep(vs, i);
      if Separator(i, ncols) == '\n' {
        CellsAfterLineBreak(x, rest);
      } else {
        LastSeparatorBreaksLine(|vs|, ncols, i);
        CellsAfterComma(x, rest);
      }
    }
  }

  lemma RenderAllStep(vs: seq<int>, i: nat)
    requires i < |vs|
    ensures RenderAll(vs[i..]) == [Render(vs[i])] + RenderAll(vs[i + 1..])
  {
    var whole, tail := RenderAll(vs[i..]), RenderAll(vs[i + 1..]);
    forall k | 0 <= k < |whole|
      ensures whole[k] == ([Render(vs[i])] + tail)[k]
    {
      if k > 0 {
        assert vs[i..][k] == vs[i + 1..][k - 1];
      }
    }
  }

  /** A value ending its line contributes one cell before the cells of
      the lines that follow. */
  lemma {:induction false} CellsAfterLineBreak(x: string, rest: string)
    requires forall k :: 0 <= k < |x| ==> x[k] != ',' && x[k] != '\n'
    requires x != []
    ensures Cells(x + ['\n'] + rest) == [x] + Cells(rest)
  {
    PiecesOfJoin(x, '\n', rest);
    PiecesOfPlain(x, ',');
    var lines := Pieces(x + ['\n'] + rest, '\n');
    assert lines[0] == x;
    assert lines[1..] == Pieces(rest, '\n');
  }

  /** A value followed by a comma contributes one cell before the cells of
      the rest of its line and of the lines that follow. */
  lemma {:induction false} CellsAfterComma(x: string, rest: string)
    requires forall k :: 0 <= k < |x| ==> x[k] != ',' && x[k] != '\n'
    requires rest != []
    ensures Cells(x + [','] + rest) == [x] + Cells(rest)
  {
    var lines := Pieces(rest, '\n');
    var first := lines[0];
    var p := x + [','];
    NoLineBreakAfterComma(x);
    PiecesOfPrefix(p, '\n', rest);
    var all := Pieces(p + rest, '\n');
    assert all == [p + first] + lines[1..];
    assert all[0] == p + first && all[1..] == lines[1..];
    PiecesOfJoin(x, ',', first);
    assert Pieces(p + first, ',') == [x] + Pieces(first, ',');
    assert Cells(p + rest) == Pieces(p + first, ',') + CellsOfLines(lines[1..]);
    assert Cells(rest) == Pieces(first, ',') + CellsOfLines(lines[1..]);
  }

  lemma NoLineBreakAfterComma(x: string)
    requires forall k :: 0 <= k < |x| ==> x[k] != '\n'
    ensures forall k :: 0 <= k < |x + [',']| ==> (x + [','])[k] != '\n'
  {
  }

  lemma MulAtLeast(a: int, d: int)
    requires a >= 1 && d > 0
    ensures a * d >= d
  {
    assert a * d == (a - 1) * d + d;
  }

  lemma DivModUnique(x: int, d: int, q: int, r: int)
    requires d > 0 && 0 <= r < d && x == q * d + r
    ensures x % d == r && x / d == q
  {
    var q0, r0 := x / d, x % d;
    assert x == q0 * d + r0;
    assert (q - q0) * d == r0 - r;
    if q > q0 {
      MulAtLeast(q - q0, d);
    } else if q < q0 {
      MulAtLeast(q0 - q, d);
    }
  }

  lemma LastSeparatorBreaksLine(n: nat, ncols: nat, i: nat)
    requires ncols > 0 && n % ncols == 0 && i < n
    requires i % ncols != ncols - 1
    ensures i + 1 < n
  {
    if i + 1 == n {
      var q := n / ncols;
      assert n == q * ncols;
      assert q >= 1;
      DivModUnique(i, ncols, q - 1, ncols - 1);
    }
  }

  /** Every value, rendered and parsed back, is itself. */
  lemma {:induction false} ParseRenderAll(vs: seq<int>)
    ensures forall i :: 0 <= i < |vs| ==> ParseInt(RenderAll(vs)[i]) == Some(vs[i])
  {
    forall i | 0 <= i < |vs|
      ensures ParseInt(RenderAll(vs)[i]) == Some(vs[i])
    {
      ParseRender(vs[i]);
    }
  }

  predicate IsPathSeparator(ch: char) {
    ch == '/' || ch == '\\'
  }

  /** The file name of a path: everything after its last `/` or `\`. */
  function Basename(path: string): (name: string)
    ensures |name| <= |path| && name == path[|path| - |name|..]
    ensures forall k :: 0 <= k < |name| ==> !IsPathSeparator(name[k])
    ensures |name| < |path| ==> IsPathSeparator(path[|path| - |name| - 1])
    decreases |path|
  {
    if path == [] || IsPathSeparator(path[|path| - 1]) then []
    else Basename(path[..|path| - 1]) + [path[|path| - 1]]
  }

  /** Appending a separator-free name to a directory and a `/` gives a
      path whose file name is that name. */
  lemma {:induction false} BasenameOfJoin(dir: string, name: string)
    requires forall k :: 0 <= k < |name| ==> !IsPathSeparator(name[k])
    ensures Basename(dir + ['/'] + name) == name
  {
    var path := dir + ['/'] + name;
    var b := Basename(path);
    if |b| < |name| {
      NameCharOfJoin(dir, name, |name| - |b| - 1);
      assert false;
    } else if |b| > |name| {
      NoSeparatorInSuffix(path, b, |path| - |name| - 1);
      assert false;
    }
    assert b == path[|path| - |name|..] == name;
  }

  lemma NameCharOfJoin(dir: string, name: string, j: int)
    requires 0 <= j < |name|
    ensures (dir + ['/'] + name)[|dir| + 1 + j] == name[j]
  {
  }

  lemma NoSeparatorInSuffix(path: string, b: string, k: int)
    requires |b| <= |path| && b == path[|path| - |b|..]
    requires forall i :: 0 <= i < |b| ==> !IsPathSeparator(b[i])
    requires |path| - |b| <= k < |path|
    ensures !IsPathSeparator(path[k])
  {
    assert path[k] == b[k - (|path| - |b|)];
  }
  /** A separator-free path is its own base name. */
  lemma {:induction false} BasenameOfPlain(path: string)
    requires forall k :: 0 <= k < |path| ==> !IsPathSeparator(path[k])
    ensures Basename(path) == path
    decreases |path|
  {
    if path != [] {
      var init := path[..|path| - 1];
      BasenameOfPlain(init);
      assert init + [path[|path| - 1]] == path;
    }
  }

  /** A tile's file name holds no path separator. */
  lemma TileNameWithoutSeparator(latitude: int, longitude: int)
    ensures var name := Render(latitude) + "_" + Render(longitude) + ".bin";
      forall k :: 0 <= k < |name| ==> !IsPathSeparator(name[k])
  {
    var a, b := Render(latitude), Render(longitude) + ".bin";
    var name := a + "_" + b;
    assert name == Render(latitude) + "_" + Render(longitude) + ".bin";
    forall k | 0 <= k < |name|
      ensures !IsPathSeparator(name[k])
    {
      if k < |a| {
        assert name[k] == a[k];
      } else if k > |a| {
        var m := k - |a| - 1;
        assert name[k] == b[m];
        if m < |Render(longitude)| {
          assert b[m] == Render(longitude)[m];
        }
      }
    }
  }

}
