/** The few pieces of Python's `str` behaviour the keyword parser relies on:
    whitespace, `strip()`, `lower()`, `split(c)` on one character, slicing
    with clamped bounds, and `int()` applied to a short field. */
module Text {
  import opened Wrappers

  /** Python's `str.isspace()` for a single character. */
  predicate IsSpace(c: char) {
    var n := c as int;
    (9 <= n <= 13) || (28 <= n <= 32) || n == 0x85 || n == 0xA0 || n == 0x1680
    || (0x2000 <= n <= 0x200A) || n == 0x2028 || n == 0x2029 || n == 0x202F
    || n == 0x205F || n == 0x3000
  }

  predicate AllSpace(s: string) {
    forall k :: 0 <= k < |s| ==> IsSpace(s[k])
  }

  /** Number of whitespace characters at the start of `s`. */
  function LeadingSpace(s: string): (n: nat)
    ensures n <= |s|
    ensures forall k :: 0 <= k < n ==> IsSpace(s[k])
    ensures n < |s| ==> !IsSpace(s[n])
  {
    if s == [] || !IsSpace(s[0]) then 0 else 1 + LeadingSpace(s[1..])
  }

  /** Number of whitespace characters at the end of `s`. */
  function TrailingSpace(s: string): (n: nat)
    ensures n <= |s|
    ensures forall k :: |s| - n <= k < |s| ==> IsSpace(s[k])
    ensures n < |s| ==> !IsSpace(s[|s| - 1 - n])
  {
    if s == [] || !IsSpace(s[|s| - 1]) then 0 else 1 + TrailingSpace(s[..|s| - 1])
  }

  /** Python's `s.strip()`: `s` without its leading and trailing whitespace. */
  function Strip(s: string): (r: string)
    ensures r == [] <==> AllSpace(s)
  {
    var lead := LeadingSpace(s);
    if lead == |s| then [] else s[lead..|s| - TrailingSpace(s)]
  }

  /** What `Strip` removes is whitespace at either end, and what it keeps
      neither starts nor ends with whitespace. */
  lemma StripTrims(s: string)
    ensures var r := Strip(s);
      (r != [] ==> !IsSpace(r[0]) && !IsSpace(r[|r| - 1]))
      && exists lead :: 0 <= lead <= |s| - |r| && r == s[lead..lead + |r|]
           && AllSpace(s[..lead]) && AllSpace(s[lead + |r|..])
  {
    var lead := LeadingSpace(s);
    var r := Strip(s);
    if lead == |s| {
      assert s[..lead] == s;
      assert r == s[lead..lead + |r|];
    } else {
      var trail := TrailingSpace(s);
      assert !IsSpace(s[lead]);
      assert trail < |s| - lead;
      assert r == s[lead..|s| - trail];
      assert r == s[lead..lead + |r|];
      assert AllSpace(s[..lead]) && AllSpace(s[lead + |r|..]);
    }
  }

  predicate IsUpper(c: char) { 'A' <= c <= 'Z' }

  /** No ASCII capital letter occurs in `s`. */
  predicate IsLowered(s: string) {
    forall c :: c in s ==> !IsUpper(c)
  }

  function LowerChar(c: char): (d: char)
    ensures !IsUpper(d)
    ensures !IsUpper(c) ==> d == c
  {
    if IsUpper(c) then (c as int + 32) as char else c
  }

  /** Python's `s.lower()`, restricted to the ASCII letters. */
  function ToLower(s: string): (r: string)
    ensures |r| == |s| && IsLowered(r)
    ensures forall k :: 0 <= k < |s| ==> r[k] == LowerChar(s[k])
  {
    seq(|s|, k requires 0 <= k < |s| => LowerChar(s[k]))
  }

  lemma ToLowerAppend(a: string, b: string)
    ensures ToLower(a + b) == ToLower(a) + ToLower(b)
  {
  }

  /** Lower-casing leaves a string that has no capital letter unchanged. */
  lemma ToLowerOfLowered(s: string)
    requires IsLowered(s)
    ensures ToLower(s) == s
  {
    forall k | 0 <= k < |s| ensures ToLower(s)[k] == s[k] {
      assert s[k] in s;
    }
  }

  /** Number of occurrences of `c` in `s`. */
  function Count(s: string, c: char): nat {
    if s == [] then 0 else (if s[0] == c then 1 else 0) + Count(s[1..], c)
  }

  /** Python's `s.split(sep)` for a one-character separator: the maximal
      pieces of `s` between occurrences of `sep`, empty pieces included. */
  function Split(s: string, sep: char): (parts: seq<string>)
    ensures |parts| == Count(s, sep) + 1
    ensures forall p :: p in parts ==> sep !in p
    ensures forall p, c :: p in parts && c in p ==> c in s
  {
    if s == [] then [[]]
    else
      var rest := Split(s[1..], sep);
      if s[0] == sep then
        [[]] + rest
      else
        assert rest[0] in rest;
        assert forall p :: p in [[s[0]] + rest[0]] + rest[1..] ==> p == [s[0]] + rest[0] || p in rest;
        [[s[0]] + rest[0]] + rest[1..]
  }

  /** Python's `sep.join(parts)`. */
  function Join(parts: seq<string>, sep: char): string {
    if |parts| == 0 then []
    else if |parts| == 1 then parts[0]
    else parts[0] + [sep] + Join(parts[1..], sep)
  }

  lemma JoinConsHead(a: string, x: string, rest: seq<string>, sep: char)
    ensures Join([a + x] + rest, sep) == a + Join([x] + rest, sep)
  {
    var l := [a + x] + rest;
    var m := [x] + rest;
    assert l[1..] == rest == m[1..];
  }

  /** Splitting and joining again on the same separator is the identity. */
  lemma {:induction false} JoinSplit(s: string, sep: char)
    ensures Join(Split(s, sep), sep) == s
  {
    if s != [] {
      var rest := Split(s[1..], sep);
      JoinSplit(s[1..], sep);
      if s[0] == sep {
        assert ([[]] + rest)[1..] == rest;
      } else {
        assert rest == [rest[0]] + rest[1..];
        JoinConsHead([s[0]], rest[0], rest[1..], sep);
      }
    }
  }

  lemma {:induction false} SplitNoSep(a: string, sep: char)
    requires sep !in a
    ensures Split(a, sep) == [a]
  {
    if a != [] {
      SplitNoSep(a[1..], sep);
      assert [a[0]] + a[1..] == a;
    }
  }

  lemma {:induction false} SplitAroundSep(a: string, b: string, sep: char)
    requires sep !in a
    ensures Split(a + [sep] + b, sep) == [a] + Split(b, sep)
  {
    if a == [] {
      assert (a + [sep] + b)[1..] == b;
    } else {
      assert (a + [sep] + b)[1..] == a[1..] + [sep] + b;
      SplitAroundSep(a[1..], b, sep);
      assert [a[0]] + a[1..] == a;
    }
  }

  /** Joining pieces that contain no separator and splitting again gives
      the pieces back. */
  lemma {:induction false} SplitJoin(parts: seq<string>, sep: char)
    requires |parts| >= 1
    requires forall p :: p in parts ==> sep !in p
    ensures Split(Join(parts, sep), sep) == parts
  {
    if |parts| == 1 {
      assert parts[0] in parts;
      SplitNoSep(parts[0], sep);
    } else {
      assert parts[0] in parts;
      assert forall p :: p in parts[1..] ==> p in parts;
      SplitJoin(parts[1..], sep);
      SplitAroundSep(parts[0], Join(parts[1..], sep), sep);
      assert [parts[0]] + parts[1..] == parts;
    }
  }

  /** The comprehension `[w for w in parts if w]`. */
  function DropEmpty(parts: seq<string>): (r: seq<string>)
    ensures |r| <= |parts|
    ensures forall p :: p in r <==> p in parts && p != []
  {
    if parts == [] then []
    else if parts[0] == [] then DropEmpty(parts[1..])
    else
      assert forall p :: p in parts <==> p == parts[0] || p in parts[1..];
      [parts[0]] + DropEmpty(parts[1..])
  }

  lemma {:induction false} DropEmptyOfNonEmpty(parts: seq<string>)
    requires forall p :: p in parts ==> p != []
    ensures DropEmpty(parts) == parts
  {
    if parts != [] {
      assert parts[0] in parts;
      assert forall p :: p in parts[1..] ==> p in parts;
      DropEmptyOfNonEmpty(parts[1..]);
    }
  }

  /** Filtering distributes over concatenation, so the kept tokens stay in
      their order and keep their repeats. */
  lemma {:induction false} DropEmptyAppend(a: seq<string>, b: seq<string>)
    ensures DropEmpty(a + b) == DropEmpty(a) + DropEmpty(b)
  {
    if a == [] {
      assert a + b == b;
    } else {
      assert (a + b)[0] == a[0];
      assert (a + b)[1..] == a[1..] + b;
      DropEmptyAppend(a[1..], b);
    }
  }

  /** A single token is kept exactly when it is non-empty. */
  lemma DropEmptySingleton(w: string)
    ensures DropEmpty([w]) == if w == [] then [] else [w]
  {
    assert [w][1..] == [];
  }

  /** `n` spaces. */
  function Spaces(n: nat): (s: string)
    ensures |s| == n
    ensures forall k :: 0 <= k < n ==> s[k] == ' '
  {
    if n == 0 then [] else [' '] + Spaces(n - 1)
  }

  /** `n` empty strings. */
  function Empties(n: nat): (ps: seq<string>)
    ensures |ps| == n
    ensures forall k :: 0 <= k < n ==> ps[k] == []
  {
    if n == 0 then [] else [[]] + Empties(n - 1)
  }

  /** The filter removes every empty string. */
  lemma {:induction false} DropEmptyEmpties(n: nat)
    ensures DropEmpty(Empties(n)) == []
  {
    if n > 0 {
      assert Empties(n)[1..] == Empties(n - 1);
      DropEmptyEmpties(n - 1);
    }
  }

  /** Each space at the front of a string splits off one empty piece. */
  lemma {:induction false} SplitLeadingSpaces(n: nat, t: string)
    ensures Split(Spaces(n) + t, ' ') == Empties(n) + Split(t, ' ')
  {
    if n == 0 {
      assert Spaces(0) + t == t;
    } else {
      var u := Spaces(n) + t;
      var v := Spaces(n - 1) + t;
      assert u[0] == ' ';
      assert u[1..] == v;
      assert Split(u, ' ') == [[]] + Split(v, ' ');
      SplitLeadingSpaces(n - 1, t);
      assert Empties(n) + Split(t, ' ') == [[]] + (Empties(n - 1) + Split(t, ' '));
    }
  }

  /** Every gap holds at least one space. */
  predicate PositiveGaps(gaps: seq<nat>) {
    forall i :: 0 <= i < |gaps| ==> gaps[i] >= 1
  }

  /** Words separated by runs of spaces, `gaps[i]` of them after word `i`. */
  function SpacedJoin(words: seq<string>, gaps: seq<nat>): string
    requires |words| >= 1 && |gaps| == |words| - 1
    decreases |words|
  {
    if |words| == 1 then words[0]
    else words[0] + Spaces(gaps[0]) + SpacedJoin(words[1..], gaps[1..])
  }

  /** Splitting space-separated words on single spaces and dropping the
      empty pieces gives back the words, however long each run of spaces. */
  lemma {:induction false} SplitSpacedJoin(words: seq<string>, gaps: seq<nat>)
    requires |words| >= 1 && |gaps| == |words| - 1 && PositiveGaps(gaps)
    requires forall w :: w in words ==> w != [] && ' ' !in w
    ensures DropEmpty(Split(SpacedJoin(words, gaps), ' ')) == words
    decreases |words|
  {
    var w := words[0];
    assert w in words;
    if |words| == 1 {
      SplitNoSep(w, ' ');
      DropEmptySingleton(w);
    } else {
      assert forall v :: v in words[1..] ==> v in words;
      SplitSpacedJoin(words[1..], gaps[1..]);
      SplitAfterWord(w, gaps[0], SpacedJoin(words[1..], gaps[1..]));
      assert [w] + words[1..] == words;
    }
  }

  /** A word followed by a run of spaces is one kept piece, whatever follows. */
  lemma SplitAfterWord(w: string, g: nat, rest: string)
    requires w != [] && ' ' !in w && g >= 1
    ensures DropEmpty(Split(w + Spaces(g) + rest, ' ')) == [w] + DropEmpty(Split(rest, ' '))
  {
    SplitWordSpaces(w, g, rest);
    DropEmptyWordEmpties(w, g - 1, Split(rest, ' '));
  }

  lemma SplitWordSpaces(w: string, g: nat, rest: string)
    requires ' ' !in w && g >= 1
    ensures Split(w + Spaces(g) + rest, ' ') == [w] + Empties(g - 1) + Split(rest, ' ')
  {
    var tail := Spaces(g - 1) + rest;
    assert Spaces(g) == [' '] + Spaces(g - 1);
    assert w + Spaces(g) + rest == w + [' '] + tail;
    SplitAroundSep(w, tail, ' ');
    SplitLeadingSpaces(g - 1, rest);
  }

  lemma DropEmptyWordEmpties(w: string, m: nat, pieces: seq<string>)
    requires w != []
    ensures DropEmpty([w] + Empties(m) + pieces) == [w] + DropEmpty(pieces)
  {
    DropEmptyAppend([w] + Empties(m), pieces);
    DropEmptyAppend([w], Empties(m));
    DropEmptyEmpties(m);
    DropEmptySingleton(w);
  }

  /** Space-separated words end with the last character of the last word. */
  lemma {:induction false} SpacedJoinEnd(words: seq<string>, gaps: seq<nat>)
    requires |words| >= 1 && |gaps| == |words| - 1 && words[|words| - 1] != []
    ensures var j := SpacedJoin(words, gaps); var w := words[|words| - 1];
      |j| >= 1 && j[|j| - 1] == w[|w| - 1]
    decreases |words|
  {
    if |words| > 1 {
      SpacedJoinEnd(words[1..], gaps[1..]);
    }
  }

  function Min(a: nat, b: nat): nat { if a <= b then a else b }

  /** Python's `s[i:j]` for non-negative bounds, which clamps both ends. */
  function Slice(s: string, i: nat, j: nat): (r: string)
    ensures |r| == if Min(j, |s|) > i then Min(j, |s|) - i else 0
    ensures forall k :: 0 <= k < |r| ==> r[k] == s[i + k]
    ensures i <= j <= |s| ==> r == s[i..j]
  {
    var lo := Min(i, |s|);
    var hi := Min(j, |s|);
    if hi <= lo then [] else s[lo..hi]
  }

  /** Python's `s[i:]` for a non-negative start. */
  function SliceFrom(s: string, i: nat): (r: string)
    ensures i <= |s| ==> r == s[i..]
    ensures i >= |s| ==> r == []
  {
    s[Min(i, |s|)..]
  }

  predicate IsDigit(c: char) { '0' <= c <= '9' }

  predicate AllDigits(s: string) {
    forall k :: 0 <= k < |s| ==> IsDigit(s[k])
  }

  function DigitValue(c: char): nat
    requires IsDigit(c)
  {
    c as int - '0' as int
  }

  function Pow10(k: nat): nat {
    if k == 0 then 1 else 10 * Pow10(k - 1)
  }

  /** The value of a string of decimal digits, most significant first. */
  function DigitsValue(ds: string): (n: nat)
    requires AllDigits(ds)
    ensures n < Pow10(|ds|)
  {
    if ds == [] then 0
    else 10 * DigitsValue(ds[..|ds| - 1]) + DigitValue(ds[|ds| - 1])
  }

  /** The information separators U+001C to U+001F: whitespace to
      `str.strip()`, but neither whitespace, sign nor digit to `int()`, which
      skips only ASCII `\t\n\v\f\r` and space besides the non-ASCII
      whitespace it maps to a space. */
  predicate IsInfoSeparator(c: char) {
    28 <= c as int <= 31
  }

  predicate HasInfoSeparator(s: string) {
    exists k :: 0 <= k < |s| && IsInfoSeparator(s[k])
  }

  /** Python's `int(field)` in base 10: optional surrounding whitespace, an
      optional sign, then one or more digits. `None` is the `ValueError` case.
      With no information separator in the field, `IsSpace` is exactly the
      whitespace `int()` skips. */
  function ParseInt(field: string): (r: Option<int>)
    ensures AllSpace(field) ==> r.None?
    ensures HasInfoSeparator(field) ==> r.None?
  {
    if HasInfoSeparator(field) then None
    else
      var t := Strip(field);
      if |t| >= 2 && (t[0] == '+' || t[0] == '-') && AllDigits(t[1..]) then
        var magnitude: int := DigitsValue(t[1..]);
        Some(if t[0] == '-' then -magnitude else magnitude)
      else if |t| >= 1 && AllDigits(t) then
        Some(DigitsValue(t))
      else
        None
  }

  function Digit(d: nat): (c: char)
    requires d < 10
    ensures IsDigit(c) && DigitValue(c) == d
  {
    ('0' as int + d) as char
  }

  /** A number below 100 written in a two-character column: a space then
      the digit, or the two digits. */
  function Field(n: nat): (f: string)
    requires n < 100
  {
    if n < 10 then [' ', Digit(n)] else [Digit(n / 10), Digit(n % 10)]
  }

  lemma StripUnpadded(s: string)
    requires s != [] && !IsSpace(s[0]) && !IsSpace(s[|s| - 1])
    ensures Strip(s) == s
  {
    assert LeadingSpace(s) == 0;
    assert TrailingSpace(s) == 0;
  }

  lemma StripConcatUnpadded(a: string, b: string)
    requires a != [] && !IsSpace(a[0])
    requires b != [] && !IsSpace(b[|b| - 1])
    ensures Strip(a + b) == a + b
  {
    var s := a + b;
    assert s[0] == a[0] && s[|s| - 1] == b[|b| - 1];
    StripUnpadded(s);
  }

  /** `int()` reads back every number written in a two-character column,
      with the padding on either side. */
  lemma ParseIntField(n: nat)
    requires n < 100
    ensures ParseInt(Field(n)) == Some(n)
    ensures n < 10 ==> ParseInt([Digit(n), ' ']) == Some(n)
  {
    if n < 10 {
      var f := Field(n);
      assert LeadingSpace(f) == 1;
      assert Strip(f) == [Digit(n)];
      assert DigitsValue([Digit(n)]) == n by {
        assert [Digit(n)][..0] == [];
      }
      var g := [Digit(n), ' '];
      assert LeadingSpace(g) == 0;
      assert TrailingSpace(g) == 1;
      assert Strip(g) == [Digit(n)];
    } else {
      var f := Field(n);
      StripUnpadded(f);
      assert f[..1] == [Digit(n / 10)];
      assert [Digit(n / 10)][..0] == [];
      assert DigitsValue(f[..1]) == n / 10;
      assert DigitsValue(f) == 10 * (n / 10) + n % 10;
    }
  }

  /** Whatever `int()` accepts from a field of at most two characters lies
      in [-9, 99]. */
  lemma ParseIntShortRange(field: string)
    requires |field| <= 2
    ensures ParseInt(field).Some? ==> -9 <= ParseInt(field).value <= 99
  {
    var t := Strip(field);
    assert |t| <= 2;
    if HasInfoSeparator(field) {
    } else if |t| >= 2 && (t[0] == '+' || t[0] == '-') && AllDigits(t[1..]) {
      assert DigitsValue(t[1..]) < Pow10(1);
    } else if |t| >= 1 && AllDigits(t) {
      assert DigitsValue(t) < Pow10(|t|) <= Pow10(2);
    }
  }
}
