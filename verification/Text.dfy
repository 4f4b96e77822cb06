/** The text helpers the state files rely on, as the Rust standard library defines them: lines,
    splitting at a separator, and decimal numbers. */
module Text {
  import opened Paths

  // ----- machine integers -----

  const U64_MAX: nat := 0xFFFF_FFFF_FFFF_FFFF
  const U32_MAX: nat := 0xFFFF_FFFF
  const I32_MIN: int := -0x8000_0000
  const I32_MAX: int := 0x7FFF_FFFF

  type u64 = n: nat | n <= U64_MAX
  type u32 = n: nat | n <= U32_MAX
  type i32 = n: int | I32_MIN <= n <= I32_MAX

  // ----- splitting -----

  /** Position of the first `c`, or the length. */
  function FirstIndex(s: string, c: char): (i: nat)
    ensures i <= |s|
    ensures forall j :: 0 <= j < i ==> s[j] != c
    ensures i < |s| ==> s[i] == c
  {
    if |s| == 0 || s[0] == c then 0 else 1 + FirstIndex(s[1..], c)
  }

  lemma FirstIndexOfConcat(a: string, c: char, b: string)
    requires c !in a
    ensures FirstIndex(a + [c] + b, c) == |a|
  {
    var s := a + [c] + b;
    assert s[|a|] == c;
    assert forall j :: 0 <= j < |a| ==> s[j] == a[j];
  }

  function StripPrefix(s: string, prefix: string): Option<string> {
    if prefix <= s then Some(s[|prefix|..]) else None
  }

  lemma StripOwnPrefix(prefix: string, s: string)
    ensures StripPrefix(prefix + s, prefix) == Some(s)
  {
  }

  /** `split_once` */
  function SplitOnce(s: string, c: char): Option<(string, string)> {
    var i := FirstIndex(s, c);
    if i < |s| then Some((s[..i], s[i + 1..])) else None
  }

  lemma SplitOnceOfConcat(a: string, c: char, b: string)
    requires c !in a
    ensures SplitOnce(a + [c] + b, c) == Some((a, b))
  {
    FirstIndexOfConcat(a, c, b);
    var s := a + [c] + b;
    assert s[..|a|] == a && s[|a| + 1..] == b;
  }

  /** `split`: the pieces between the separators, at least one. */
  function Split(s: string, c: char): (parts: seq<string>)
    ensures |parts| > 0
    ensures forall i :: 0 <= i < |parts| ==> c !in parts[i]
    decreases |s|
  {
    var i := FirstIndex(s, c);
    if i < |s| then [s[..i]] + Split(s[i + 1..], c) else [s]
  }

  lemma SplitOfConcat(a: string, c: char, b: string)
    requires c !in a
    ensures Split(a + [c] + b, c) == [a] + Split(b, c)
  {
    FirstIndexOfConcat(a, c, b);
    var s := a + [c] + b;
    assert s[..|a|] == a && s[|a| + 1..] == b;
  }

  lemma SplitOfPlain(a: string, c: char)
    requires c !in a
    ensures Split(a, c) == [a]
  {
  }

  /** One more ordinary letter at the end goes to the last piece. */
  lemma {:induction false} SplitOfLonger(s: string, c: char, d: char)
    requires c != d
    ensures |Split(s + [d], c)| == |Split(s, c)|
    ensures forall k :: 0 <= k < |Split(s, c)| - 1 ==> Split(s + [d], c)[k] == Split(s, c)[k]
    ensures Split(s + [d], c)[|Split(s, c)| - 1] == Split(s, c)[|Split(s, c)| - 1] + [d]
    decreases |s|
  {
    var i := FirstIndex(s, c);
    if i < |s| {
      assert s == s[..i] + [c] + s[i + 1..];
      assert s + [d] == s[..i] + [c] + (s[i + 1..] + [d]);
      SplitOfConcat(s[..i], c, s[i + 1..]);
      SplitOfConcat(s[..i], c, s[i + 1..] + [d]);
      SplitOfLonger(s[i + 1..], c, d);
    } else {
      SplitOfPlain(s, c);
      SplitOfPlain(s + [d], c);
    }
  }

  // ----- lines -----

  function ChompCR(s: string): string {
    if |s| > 0 && s[|s| - 1] == '\r' then s[..|s| - 1] else s
  }

  /** `lines`: pieces ended by a line feed, each without a carriage return before it, and a last
      unended piece as it is. */
  function Lines(s: string): (lines: seq<string>)
    ensures forall i :: 0 <= i < |lines| ==> '\n' !in lines[i]
    decreases |s|
  {
    if |s| == 0 then []
    else
      var i := FirstIndex(s, '\n');
      if i < |s| then [ChompCR(s[..i])] + Lines(s[i + 1..]) else [s]
  }

  function Unlines(lines: seq<string>): string {
    if |lines| == 0 then "" else lines[0] + "\n" + Unlines(lines[1..])
  }

  function Chomped(lines: seq<string>): seq<string> {
    seq(|lines|, i requires 0 <= i < |lines| => ChompCR(lines[i]))
  }

  lemma ChompedHead(lines: seq<string>)
    requires |lines| > 0
    ensures Chomped(lines) == [ChompCR(lines[0])] + Chomped(lines[1..])
  {
  }

  lemma LinesOfLine(line: string, rest: string)
    requires '\n' !in line
    ensures Lines(line + "\n" + rest) == [ChompCR(line)] + Lines(rest)
  {
    FirstIndexOfConcat(line, '\n', rest);
    var s := line + "\n" + rest;
    assert s == line + ['\n'] + rest;
    assert s[..|line|] == line && s[|line| + 1..] == rest;
  }

  lemma Assoc<T>(a: seq<T>, b: seq<T>, c: seq<T>)
    ensures a + (b + c) == (a + b) + c
  {
  }

  lemma TailOfConcat<T>(a: seq<T>, b: seq<T>)
    requires |a| > 0
    ensures (a + b)[0] == a[0] && (a + b)[1..] == a[1..] + b
  {
  }

  lemma {:induction false} UnlinesAppends(a: seq<string>, b: seq<string>)
    ensures Unlines(a + b) == Unlines(a) + Unlines(b)
  {
    if |a| == 0 {
      assert a + b == b;
    } else {
      UnlinesAppends(a[1..], b);
      TailOfConcat(a, b);
      Assoc(a[0] + "\n", Unlines(a[1..]), Unlines(b));
    }
  }

  lemma UnlinesHead(lines: seq<string>, rest: string)
    requires |lines| > 0
    ensures Unlines(lines) + rest == lines[0] + "\n" + (Unlines(lines[1..]) + rest)
  {
  }

  /** Reading lines back that were written one by one, in front of any other text. */
  lemma {:induction false} LinesOfUnlines(lines: seq<string>, rest: string)
    requires forall i :: 0 <= i < |lines| ==> '\n' !in lines[i]
    ensures Lines(Unlines(lines) + rest) == Chomped(lines) + Lines(rest)
  {
    if |lines| == 0 {
      assert Unlines(lines) + rest == rest;
    } else {
      var tail := Unlines(lines[1..]) + rest;
      calc {
        Lines(Unlines(lines) + rest);
        { UnlinesHead(lines, rest); }
        Lines(lines[0] + "\n" + tail);
        { LinesOfLine(lines[0], tail); }
        [ChompCR(lines[0])] + Lines(tail);
        { LinesOfUnlines(lines[1..], rest); }
        [ChompCR(lines[0])] + (Chomped(lines[1..]) + Lines(rest));
        { Assoc([ChompCR(lines[0])], Chomped(lines[1..]), Lines(rest)); }
        [ChompCR(lines[0])] + Chomped(lines[1..]) + Lines(rest);
        { ChompedHead(lines); }
        Chomped(lines) + Lines(rest);
      }
    }
  }

  /** What comes before the first line feed. */
  function FirstLine(s: string): string {
    s[..FirstIndex(s, '\n')]
  }

  /** The lines that stand behind the first line feed of a text written as one line. */
  function Spill(s: string): seq<string> {
    var i := FirstIndex(s, '\n');
    if i < |s| then Lines(s[i + 1..] + "\n") else []
  }

  /** Texts written one after the other are read one after the other, whatever they hold. */
  lemma {:induction false} LinesOfTwo(line: string, rest: string)
    ensures Lines(line + "\n" + rest) == Lines(line + "\n") + Lines(rest)
    decreases |line|
  {
    var i := FirstIndex(line, '\n');
    if i < |line| {
      var a, b := line[..i], line[i + 1..];
      calc {
        Lines(line + "\n" + rest);
        { SplitText(line, i, rest); }
        Lines(a + "\n" + (b + "\n" + rest));
        { LinesOfLine(a, b + "\n" + rest); }
        [ChompCR(a)] + Lines(b + "\n" + rest);
        { LinesOfTwo(b, rest); }
        [ChompCR(a)] + (Lines(b + "\n") + Lines(rest));
        { Assoc([ChompCR(a)], Lines(b + "\n"), Lines(rest)); }
        [ChompCR(a)] + Lines(b + "\n") + Lines(rest);
        { LinesOfLine(a, b + "\n"); }
        Lines(a + "\n" + (b + "\n")) + Lines(rest);
        { SplitLine(line, i); }
        Lines(line + "\n") + Lines(rest);
      }
    } else {
      LinesOfLine(line, rest);
      LinesOfEnded(line);
    }
  }

  lemma LinesOfEnded(line: string)
    requires '\n' !in line
    ensures Lines(line + "\n") == [ChompCR(line)]
  {
    LinesOfLine(line, "");
    assert line + "\n" + "" == line + "\n" && Lines("") == [];
  }

  lemma SplitLine(line: string, i: nat)
    requires i < |line| && line[i] == '\n'
    ensures line + "\n" == line[..i] + "\n" + (line[i + 1..] + "\n")
  {
    assert line == line[..i] + "\n" + line[i + 1..];
  }

  lemma SplitText(line: string, i: nat, rest: string)
    requires i < |line| && line[i] == '\n'
    ensures line + "\n" + rest == line[..i] + "\n" + (line[i + 1..] + "\n" + rest)
  {
    SplitLine(line, i);
    Assoc(line[..i] + "\n", line[i + 1..] + "\n", rest);
  }

  lemma LinesOfPrefixed(prefix: string, s: string)
    requires '\n' !in prefix
    ensures Lines(prefix + s + "\n") == [ChompCR(prefix + FirstLine(s))] + Spill(s)
  {
    var i := FirstIndex(s, '\n');
    var a := prefix + s[..i];
    if i < |s| {
      assert prefix + s + "\n" == a + "\n" + (s[i + 1..] + "\n") by {
        assert (prefix + s)[..|a|] == a && (prefix + s)[|a| + 1..] == s[i + 1..];
        SplitLine(prefix + s, |a|);
      }
      LinesOfLine(a, s[i + 1..] + "\n");
    } else {
      LinesOfEnded(a);
      assert s[..i] == s;
    }
  }

  /** The lines read back from lines written one by one, which may hold line feeds. */
  function Pieces(lines: seq<string>): seq<string> {
    if |lines| == 0 then [] else Lines(lines[0] + "\n") + Pieces(lines[1..])
  }

  lemma {:induction false} LinesOfAny(lines: seq<string>)
    ensures Lines(Unlines(lines)) == Pieces(lines)
  {
    if |lines| > 0 {
      LinesOfTwo(lines[0], Unlines(lines[1..]));
      LinesOfAny(lines[1..]);
    }
  }

  lemma {:induction false} PiecesAppends(a: seq<string>, b: seq<string>)
    ensures Pieces(a + b) == Pieces(a) + Pieces(b)
  {
    if |a| == 0 {
      assert a + b == b;
    } else {
      PiecesAppends(a[1..], b);
      TailOfConcat(a, b);
      Assoc(Lines(a[0] + "\n"), Pieces(a[1..]), Pieces(b));
    }
  }

  lemma {:induction false} PiecesOfPlain(lines: seq<string>)
    requires forall i :: 0 <= i < |lines| ==> '\n' !in lines[i]
    ensures Pieces(lines) == Chomped(lines)
  {
    if |lines| > 0 {
      PiecesOfPlain(lines[1..]);
      ChompedHead(lines);
      LinesOfEnded(lines[0]);
    }
  }

  predicate EndsInCR(s: string) {
    |s| > 0 && s[|s| - 1] == '\r'
  }

  ghost predicate LineSafe(s: string) {
    '\n' !in s && !EndsInCR(s)
  }

  lemma ChompKeeps(prefix: string, s: string)
    requires |prefix| > 0 && prefix[|prefix| - 1] != '\r'
    ensures ChompCR(prefix + s) == prefix + ChompCR(s)
  {
    if |s| > 0 {
      assert (prefix + s)[|prefix + s| - 1] == s[|s| - 1];
    } else {
      assert prefix + s == prefix;
    }
  }

  lemma ChompedAppends(a: seq<string>, b: seq<string>)
    ensures Chomped(a + b) == Chomped(a) + Chomped(b)
  {
  }

  lemma SameCons<T>(x: T, xs: seq<T>, y: T, ys: seq<T>)
    ensures [x] + xs == [y] + ys <==> x == y && xs == ys
  {
    if [x] + xs == [y] + ys {
      assert ([x] + xs)[0] == x && ([y] + ys)[0] == y;
      assert ([x] + xs)[1..] == xs && ([y] + ys)[1..] == ys;
    }
  }

  // ----- iterating over lines -----

  /** `filter_map` over lines. */
  function FilterMap<T>(f: string -> Option<T>, lines: seq<string>): seq<T> {
    if |lines| == 0 then []
    else (match f(lines[0]) case Some(x) => [x] case None => []) + FilterMap(f, lines[1..])
  }

  /** `find_map` over lines. */
  function FindMap<T>(f: string -> Option<T>, lines: seq<string>): Option<T> {
    if |lines| == 0 then None
    else if f(lines[0]).Some? then f(lines[0])
    else FindMap(f, lines[1..])
  }

  lemma {:induction false} FilterMapAppends<T>(f: string -> Option<T>, a: seq<string>, b: seq<string>)
    ensures FilterMap(f, a + b) == FilterMap(f, a) + FilterMap(f, b)
  {
    if |a| == 0 {
      assert a + b == b;
    } else {
      var head := match f(a[0]) case Some(x) => [x] case None => [];
      FilterMapAppends(f, a[1..], b);
      TailOfConcat(a, b);
      Assoc(head, FilterMap(f, a[1..]), FilterMap(f, b));
    }
  }

  lemma {:induction false} FindMapIsFirst<T>(f: string -> Option<T>, lines: seq<string>)
    ensures FindMap(f, lines) == if FilterMap(f, lines) == [] then None else Some(FilterMap(f, lines)[0])
  {
    if |lines| > 0 {
      FindMapIsFirst(f, lines[1..]);
    }
  }

  lemma {:induction false} FilterMapOfNothing<T>(f: string -> Option<T>, lines: seq<string>)
    requires forall i :: 0 <= i < |lines| ==> f(lines[i]).None?
    ensures FilterMap(f, lines) == []
  {
    if |lines| > 0 {
      FilterMapOfNothing(f, lines[1..]);
    }
  }

  /** Reading the chomped lines is reading the lines through the chomp. */
  lemma {:induction false} FilterMapChomped<T>(f: string -> Option<T>, lines: seq<string>)
    ensures FilterMap(f, Chomped(lines)) == FilterMap(line => f(ChompCR(line)), lines)
  {
    if |lines| > 0 {
      ChompedHead(lines);
      assert Chomped(lines)[1..] == Chomped(lines[1..]);
      FilterMapChomped(f, lines[1..]);
    }
  }

  // ----- fields -----

  function Field(prefix: string): string -> Option<string> {
    line => StripPrefix(line, prefix)
  }

  /** `field`: the value of the first line that starts with the key. */
  function FieldIn(lines: seq<string>, prefix: string): Option<string> {
    FindMap(Field(prefix), lines)
  }

  /** The first line with the prefix decides. */
  lemma {:induction false} FieldAt(lines: seq<string>, k: nat, prefix: string, value: string)
    requires k < |lines| && lines[k] == prefix + value
    requires forall j :: 0 <= j < k ==> !(prefix <= lines[j])
    ensures FieldIn(lines, prefix) == Some(value)
  {
    if k == 0 {
      StripOwnPrefix(prefix, value);
    } else {
      FieldAt(lines[1..], k - 1, prefix, value);
    }
  }

  // ----- decimal numbers -----

  predicate IsDigit(c: char) {
    '0' <= c <= '9'
  }

  function DigitChar(d: nat): char
    requires d < 10
  {
    ('0' as int + d) as char
  }

  function DigitValue(c: char): nat
    requires IsDigit(c)
  {
    c as int - '0' as int
  }

  function PrintNat(n: nat): (s: string)
    ensures |s| > 0 && forall i :: 0 <= i < |s| ==> IsDigit(s[i])
  {
    if n < 10 then [DigitChar(n)] else PrintNat(n / 10) + [DigitChar(n % 10)]
  }

  function PrintInt(n: int): string {
    if n < 0 then "-" + PrintNat(-n) else PrintNat(n)
  }

  predicate AllDigits(s: string) {
    |s| > 0 && forall i :: 0 <= i < |s| ==> IsDigit(s[i])
  }

  function Value(s: string): nat
    requires forall i :: 0 <= i < |s| ==> IsDigit(s[i])
  {
    if |s| == 0 then 0 else Value(s[..|s| - 1]) * 10 + DigitValue(s[|s| - 1])
  }

  /** `parse` of an unsigned type with maximum `max`: digits, an optional `+` before them. */
  function ParseUnsigned(s: string, max: nat): Option<nat> {
    var digits := if |s| > 0 && s[0] == '+' then s[1..] else s;
    if AllDigits(digits) && Value(digits) <= max then Some(Value(digits)) else None
  }

  /** `parse` of a signed type with the given range. */
  function ParseSigned(s: string, min: int, max: int): Option<int> {
    if |s| > 0 && s[0] == '-' then
      if AllDigits(s[1..]) && min <= 0 - Value(s[1..]) then Some(0 - Value(s[1..])) else None
    else
      var digits := if |s| > 0 && s[0] == '+' then s[1..] else s;
      if AllDigits(digits) && Value(digits) <= max then Some(Value(digits)) else None
  }

  lemma {:induction false} ValueOfPrint(n: nat)
    ensures Value(PrintNat(n)) == n
  {
    if n < 10 {
      assert [DigitChar(n)][..0] == "";
      assert Value("") == 0;
    } else {
      ValueOfPrint(n / 10);
      var s := PrintNat(n);
      assert s[..|s| - 1] == PrintNat(n / 10);
    }
  }

  /** Numbers are printed in decimal, the highest place first and without leading zeros. */
  lemma PrintDecimal(n: nat, d: nat)
    requires d < 10
    ensures PrintNat(d) == ["0123456789"[d]]
    ensures n > 0 ==> PrintNat(10 * n + d) == PrintNat(n) + ["0123456789"[d]]
  {
    assert (10 * n + d) / 10 == n && (10 * n + d) % 10 == d;
  }

  /** A text is read as an unsigned number exactly if it is all digits, with an optional plus before them,
      and within the range. */
  lemma ParseUnsignedIff(s: string, max: nat, n: nat)
    ensures ParseUnsigned(s, max) == Some(n) <==>
            n <= max && exists digits :: (s == digits || s == "+" + digits) && AllDigits(digits) && Value(digits) == n
  {
    var digits := if |s| > 0 && s[0] == '+' then s[1..] else s;
    assert s == digits || s == "+" + digits;
    forall other | (s == other || s == "+" + other) && AllDigits(other)
      ensures other == digits
    {
      assert IsDigit(other[0]);
    }
  }

  /** Of a signed number the minus is its own, and the rest as before. */
  lemma ParseSignedIff(s: string, min: int, max: int, n: int)
    requires min <= 0 <= max
    ensures ParseSigned(s, min, max) == Some(n) <==>
            min <= n <= max && exists digits :: (AllDigits(digits)
              && ((s == "-" + digits && n == 0 - Value(digits)) || ((s == digits || s == "+" + digits) && n == Value(digits))))
  {
    var digits := if |s| > 0 && (s[0] == '+' || s[0] == '-') then s[1..] else s;
    assert s == digits || s == "+" + digits || s == "-" + digits;
    forall other | (s == other || s == "+" + other || s == "-" + other) && AllDigits(other)
      ensures other == digits
    {
      assert IsDigit(other[0]);
    }
  }

  lemma ParsePrintUnsigned(n: nat, max: nat)
    requires n <= max
    ensures ParseUnsigned(PrintNat(n), max) == Some(n)
  {
    ValueOfPrint(n);
    assert IsDigit(PrintNat(n)[0]);
  }

  lemma ParsePrintSigned(n: int, min: int, max: int)
    requires min <= n <= max
    ensures ParseSigned(PrintInt(n), min, max) == Some(n)
  {
    if n < 0 {
      ValueOfPrint(-n);
      assert PrintInt(n)[1..] == PrintNat(-n);
    } else {
      ValueOfPrint(n);
      assert IsDigit(PrintNat(n)[0]);
    }
  }

  /** Printed numbers hold no separator and no line end. */
  lemma PrintIsPlain(n: int, c: char)
    requires !IsDigit(c) && c != '-'
    ensures c !in PrintInt(n)
    ensures ChompCR(PrintInt(n)) == PrintInt(n)
  {
    var s := PrintInt(n);
    assert forall i :: 0 <= i < |s| ==> IsDigit(s[i]) || s[i] == '-';
  }
}
