/** The Python string operations the modelled code relies on: whitespace stripping,
    joining, and the code-point order used when strings are sorted. */
module Text {

  /** The characters that Python's `str.strip` and `str.split` treat as whitespace. */
  predicate IsSpace(c: char) {
    || '\t' <= c <= '\r'
    || '\U{1C}' <= c <= ' '
    || c == '\U{85}' || c == '\U{A0}' || c == '\U{1680}'
    || '\U{2000}' <= c <= '\U{200A}'
    || c == '\U{2028}' || c == '\U{2029}' || c == '\U{202F}' || c == '\U{205F}' || c == '\U{3000}'
  }

  function StripLeft(s: string): string {
    if s != [] && IsSpace(s[0]) then StripLeft(s[1..]) else s
  }

  function StripRight(s: string): string {
    if s != [] && IsSpace(s[|s| - 1]) then StripRight(s[..|s| - 1]) else s
  }

  function Strip(s: string): string {
    StripRight(StripLeft(s))
  }

  /** A string that `strip` leaves alone. */
  predicate Stripped(s: string) {
    s == [] || (!IsSpace(s[0]) && !IsSpace(s[|s| - 1]))
  }

  lemma {:induction false} StripLeftIsSuffix(s: string)
    ensures StripLeft(s) == [] || !IsSpace(StripLeft(s)[0])
    ensures |StripLeft(s)| <= |s| && StripLeft(s) == s[|s| - |StripLeft(s)|..]
  {
    if s != [] && IsSpace(s[0]) {
      StripLeftIsSuffix(s[1..]);
    }
  }

  lemma {:induction false} StripRightIsPrefix(s: string)
    ensures StripRight(s) == [] || !IsSpace(StripRight(s)[|StripRight(s)| - 1])
    ensures |StripRight(s)| <= |s| && StripRight(s) == s[..|StripRight(s)|]
  {
    if s != [] && IsSpace(s[|s| - 1]) {
      StripRightIsPrefix(s[..|s| - 1]);
    }
  }

  lemma StripStrips(s: string)
    ensures Stripped(Strip(s))
  {
    StripLeftIsSuffix(s);
    StripRightIsPrefix(StripLeft(s));
  }

  /** Stripping removes whitespace from both ends and nothing else. */
  lemma StripCutsSpaces(s: string) returns (i: nat, j: nat)
    ensures i <= j <= |s| && Strip(s) == s[i..j]
    ensures forall k :: 0 <= k < |s| && !(i <= k < j) ==> IsSpace(s[k])
  {
    i := LeadingSpaces(s);
    j := TrailingSpaces(s[i..]);
    assert s[i..][..j] == s[i..i + j];
    assert forall k :: j <= k < |s| - i ==> s[i..][k] == s[i + k];
    assert forall k :: i + j <= k < |s| ==> s[k] == s[i..][k - i];
    j := i + j;
  }

  lemma {:induction false} LeadingSpaces(s: string) returns (i: nat)
    ensures i <= |s| && StripLeft(s) == s[i..] && forall k :: 0 <= k < i ==> IsSpace(s[k])
  {
    i := 0;
    if s != [] && IsSpace(s[0]) {
      i := LeadingSpaces(s[1..]);
      assert s[1..][i..] == s[i + 1..];
      assert forall k :: 0 < k < i + 1 ==> s[k] == s[1..][k - 1];
      i := i + 1;
    }
  }

  lemma {:induction false} TrailingSpaces(s: string) returns (j: nat)
    ensures j <= |s| && StripRight(s) == s[..j] && forall k :: j <= k < |s| ==> IsSpace(s[k])
  {
    j := |s|;
    if s != [] && IsSpace(s[|s| - 1]) {
      var n := |s| - 1;
      j := TrailingSpaces(s[..n]);
      assert s[..n][..j] == s[..j];
      assert forall k :: j <= k < n ==> s[k] == s[..n][k];
    }
  }

  /** The strings that pass a test, in order. */
  function Keep(parts: seq<string>, test: string -> bool): seq<string> {
    if parts == [] then []
    else (if test(parts[0]) then [parts[0]] else []) + Keep(parts[1..], test)
  }

  lemma {:induction false} KeepKeeps(parts: seq<string>, test: string -> bool)
    ensures forall p :: p in Keep(parts, test) <==> p in parts && test(p)
    ensures |Keep(parts, test)| <= |parts|
  {
    if parts != [] {
      KeepKeeps(parts[1..], test);
    }
  }

  lemma EmptyKeep(parts: seq<string>, test: string -> bool)
    ensures Keep(parts, test) == [] <==> forall p :: p in parts ==> !test(p)
  {
    KeepKeeps(parts, test);
    if Keep(parts, test) != [] {
      assert Keep(parts, test)[0] in parts;
    }
  }

  lemma StripFixesStripped(s: string)
    requires Stripped(s)
    ensures Strip(s) == s
  {
  }

  lemma StripIdempotent(s: string)
    ensures Strip(Strip(s)) == Strip(s)
  {
    StripStrips(s);
    StripFixesStripped(Strip(s));
  }

  lemma Regroup<T>(a: seq<T>, b: seq<T>, c: seq<T>)
    ensures a + (b + c) == (a + b) + c
  {
  }

  lemma AfterPrefix(prefix: string, a: string, b: string)
    ensures prefix + a == prefix + b <==> a == b
  {
    if prefix + a == prefix + b {
      assert a == (prefix + a)[|prefix|..];
      assert b == (prefix + b)[|prefix|..];
    }
  }

  function Join(separator: string, parts: seq<string>): string {
    if parts == [] then ""
    else if |parts| == 1 then parts[0]
    else parts[0] + separator + Join(separator, parts[1..])
  }

  lemma {:induction false} KeepAppend(a: seq<string>, b: seq<string>, test: string -> bool, whole: seq<string>)
    requires whole == a + b
    ensures Keep(whole, test) == Keep(a, test) + Keep(b, test)
    decreases |a|
  {
    if a == [] {
      assert whole == b;
    } else {
      assert whole[0] == a[0] && whole[1..] == a[1..] + b;
      KeepAppend(a[1..], b, test, whole[1..]);
      var first := if test(a[0]) then [a[0]] else [];
      assert first + (Keep(a[1..], test) + Keep(b, test)) == (first + Keep(a[1..], test)) + Keep(b, test);
    }
  }

  // ---- Words -----------------------------------------------------------------------------

  /** The length of the word at the start of `s`. */
  function WordLength(s: string): (n: nat)
    ensures n <= |s|
  {
    if s == [] || IsSpace(s[0]) then 0 else 1 + WordLength(s[1..])
  }

  /** The words of a text (`str.split()`). */
  function Words(s: string): seq<string>
    decreases |s|
  {
    if s == [] then []
    else if IsSpace(s[0]) then Words(s[1..])
    else [s[..WordLength(s)]] + Words(s[WordLength(s)..])
  }

  /** A nonempty string without whitespace. */
  predicate IsWord(w: string) {
    w != [] && forall i :: 0 <= i < |w| ==> !IsSpace(w[i])
  }

  lemma {:induction false} WordLengthOfWord(w: string, rest: string)
    requires forall i :: 0 <= i < |w| ==> !IsSpace(w[i])
    requires rest == [] || IsSpace(rest[0])
    ensures WordLength(w + rest) == |w|
  {
    if w == [] {
      assert w + rest == rest;
    } else {
      assert (w + rest)[1..] == w[1..] + rest;
      WordLengthOfWord(w[1..], rest);
    }
  }

  lemma {:induction false} WordLengthIsMaximal(s: string)
    ensures forall i :: 0 <= i < WordLength(s) ==> !IsSpace(s[i])
    ensures WordLength(s) < |s| ==> IsSpace(s[WordLength(s)])
  {
    if s != [] && !IsSpace(s[0]) {
      WordLengthIsMaximal(s[1..]);
      forall i | 0 <= i < WordLength(s)
        ensures !IsSpace(s[i])
      {
        if i > 0 {
          assert s[i] == s[1..][i - 1];
        }
      }
    }
  }

  lemma {:induction false} WordsAreWords(s: string)
    ensures forall i :: 0 <= i < |Words(s)| ==> IsWord(Words(s)[i])
    decreases |s|
  {
    if s != [] {
      if IsSpace(s[0]) {
        WordsAreWords(s[1..]);
      } else {
        WordLengthIsMaximal(s);
        WordsAreWords(s[WordLength(s)..]);
      }
    }
  }

  lemma WordsOfWordAnd(w: string, rest: string)
    requires IsWord(w) && (rest == [] || IsSpace(rest[0]))
    ensures Words(w + rest) == [w] + Words(rest)
  {
    WordLengthOfWord(w, rest);
    assert (w + rest)[..|w|] == w && (w + rest)[|w|..] == rest;
  }

  /** Splitting undoes joining with spaces. */
  lemma {:induction false} WordsOfJoin(ws: seq<string>)
    requires forall i :: 0 <= i < |ws| ==> IsWord(ws[i])
    ensures Words(Join(" ", ws)) == ws
  {
    if |ws| == 1 {
      WordsOfWordAnd(ws[0], "");
      assert ws[0] + "" == ws[0];
    } else if |ws| > 1 {
      var rest := Join(" ", ws[1..]);
      WordsOfJoin(ws[1..]);
      assert ws[0] + " " + rest == ws[0] + (" " + rest);
      WordsOfWordAnd(ws[0], " " + rest);
      assert (" " + rest)[1..] == rest;
    }
  }

  /** The index of the first occurrence of `c`, or the length. */
  function IndexOf(s: string, c: char): nat {
    if s == [] || s[0] == c then 0 else 1 + IndexOf(s[1..], c)
  }

  lemma {:induction false} FirstIndex(a: string, c: char, whole: string)
    requires c !in a && |whole| > |a| && whole[..|a|] == a && whole[|a|] == c
    ensures IndexOf(whole, c) == |a|
    decreases |a|
  {
    if a != [] {
      assert whole[0] == a[0];
      assert whole[1..][..|a| - 1] == a[1..];
      FirstIndex(a[1..], c, whole[1..]);
    }
  }

  /** What stands before and after the first separator can be told apart. */
  lemma FirstSeparator(separator: char, a: string, x: string, b: string, y: string)
    requires separator !in a && separator !in b
    requires a + [separator] + x == b + [separator] + y
    ensures a == b && x == y
  {
    var s, t := a + [separator] + x, b + [separator] + y;
    FirstIndex(a, separator, s);
    FirstIndex(b, separator, t);
    assert a == s[..|a|] && b == t[..|b|];
    assert x == s[|a| + 1..] && y == t[|b| + 1..];
  }

  // ---- Decimal numbers -------------------------------------------------------------------

  function Decimal(n: nat): string {
    (if n < 10 then "" else Decimal(n / 10)) + ['0' + (n % 10) as char]
  }

  lemma {:induction false} DecimalIsDigits(n: nat)
    ensures Decimal(n) != [] && forall i :: 0 <= i < |Decimal(n)| ==> '0' <= Decimal(n)[i] <= '9'
  {
    if n >= 10 {
      DecimalIsDigits(n / 10);
    }
  }

  /** The number a decimal text stands for. */
  function ValueOf(digits: string): int {
    if digits == [] then 0 else 10 * ValueOf(digits[..|digits| - 1]) + (digits[|digits| - 1] as int - '0' as int)
  }

  /** A number's decimal text stands for it, and has no leading zero. */
  lemma {:induction false} DecimalStandsFor(n: nat)
    ensures ValueOf(Decimal(n)) == n
    ensures Decimal(n) != [] && (Decimal(n)[0] == '0' ==> n == 0)
  {
    var text := Decimal(n);
    var last := ['0' + (n % 10) as char];
    assert text[..|text| - 1] == (if n < 10 then "" else Decimal(n / 10));
    if n >= 10 {
      DecimalStandsFor(n / 10);
      assert text[0] == Decimal(n / 10)[0];
    }
  }

  lemma {:induction false} DecimalIsInjective(m: nat, n: nat)
    requires Decimal(m) == Decimal(n)
    ensures m == n
  {
    var a, b := Decimal(m), Decimal(n);
    assert a[|a| - 1] == '0' + (m % 10) as char && b[|b| - 1] == '0' + (n % 10) as char;
    assert m % 10 == n % 10;
    if m >= 10 {
      DecimalIsDigits(m / 10);
    }
    if n >= 10 {
      DecimalIsDigits(n / 10);
    }
    if m >= 10 && n >= 10 {
      assert a[..|a| - 1] == Decimal(m / 10) && b[..|b| - 1] == Decimal(n / 10);
      DecimalIsInjective(m / 10, n / 10);
    }
  }

  /** An integer as text. */
  function Show(i: int): string {
    if i < 0 then "-" + Decimal(-i) else Decimal(i)
  }

  /** A negative number is shown by a minus sign before the digits of its magnitude, others by their
      digits alone. */
  lemma ShowStandsFor(i: int)
    ensures if i < 0 then Show(i) != [] && Show(i)[0] == '-' && ValueOf(Show(i)[1..]) == -i
            else ValueOf(Show(i)) == i
  {
    if i < 0 {
      DecimalStandsFor(-i);
      assert Show(i)[1..] == Decimal(-i);
    } else {
      DecimalStandsFor(i);
    }
  }

  /** Python's `<=` on strings: code points compared from the left, a prefix first. */
  predicate LexLe(a: string, b: string) {
    || a == []
    || (b != [] && (a[0] < b[0] || (a[0] == b[0] && LexLe(a[1..], b[1..]))))
  }

  /** The first place where two strings differ decides their order; a prefix comes first. */
  lemma {:induction false} LexLeExactly(a: string, b: string)
    ensures LexLe(a, b) <==> a <= b || exists i :: 0 <= i < |a| && i < |b| && a[..i] == b[..i] && a[i] < b[i]
  {
    if a != [] && b != [] {
      if a[0] == b[0] {
        LexLeExactly(a[1..], b[1..]);
        assert a == [a[0]] + a[1..] && b == [b[0]] + b[1..];
        if i :| 0 <= i < |a| - 1 && i < |b| - 1 && a[1..][..i] == b[1..][..i] && a[1..][i] < b[1..][i] {
          assert a[..i + 1] == [a[0]] + a[1..][..i] && b[..i + 1] == [b[0]] + b[1..][..i];
        }
        if i :| 0 <= i < |a| && i < |b| && a[..i] == b[..i] && a[i] < b[i] {
          DifferenceInRest(a, b, i);
        }
      } else {
        FirstDiffers(a, b);
      }
    }
  }

  lemma DifferenceInRest(a: string, b: string, i: int)
    requires 0 <= i < |a| && i < |b| && a[0] == b[0] && a[..i] == b[..i] && a[i] < b[i]
    ensures i > 0 && a[1..][..i - 1] == b[1..][..i - 1] && a[1..][i - 1] < b[1..][i - 1]
  {
    assert a[1..][..i - 1] == a[..i][1..] && b[1..][..i - 1] == b[..i][1..];
  }

  lemma SamePrefixSameHead(a: string, b: string, i: int)
    ensures 0 < i <= |a| && i <= |b| && a[..i] == b[..i] ==> a[0] == b[0]
  {
    if 0 < i <= |a| && i <= |b| && a[..i] == b[..i] {
      assert a[..i][0] == b[..i][0];
    }
  }

  lemma FirstDiffers(a: string, b: string)
    requires a != [] && b != [] && a[0] != b[0]
    ensures !(a <= b)
    ensures a[0] < b[0] <==> exists i :: 0 <= i < |a| && i < |b| && a[..i] == b[..i] && a[i] < b[i]
  {
    if i :| 0 <= i < |a| && i < |b| && a[..i] == b[..i] && a[i] < b[i] {
      SamePrefixSameHead(a, b, i);
    }
    if a[0] < b[0] {
      assert a[..0] == b[..0];
    }
  }

  lemma {:induction false} LexLeTotal(a: string, b: string)
    ensures LexLe(a, b) || LexLe(b, a)
  {
    if a != [] && b != [] && a[0] == b[0] {
      LexLeTotal(a[1..], b[1..]);
    }
  }

  lemma {:induction false} LexLeAntisymmetric(a: string, b: string)
    requires LexLe(a, b) && LexLe(b, a)
    ensures a == b
  {
    if a != [] && b != [] {
      LexLeAntisymmetric(a[1..], b[1..]);
      assert a == [a[0]] + a[1..] && b == [b[0]] + b[1..];
    }
  }

  lemma {:induction false} LexLeTransitive(a: string, b: string, c: string)
    requires LexLe(a, b) && LexLe(b, c)
    ensures LexLe(a, c)
  {
    if a != [] && a[0] == b[0] && b[0] == c[0] {
      LexLeTransitive(a[1..], b[1..], c[1..]);
    }
  }
}
