/** The string operations of the Go standard library that the controller relies on. */
module Text {

  const MAX_INT: int := 0x7FFF_FFFF_FFFF_FFFF

  predicate HasSuffix(s: string, suffix: string) {
    |suffix| <= |s| && s[|s| - |suffix|..] == suffix
  }

  function TrimPrefix(s: string, prefix: string): string {
    if prefix <= s then s[|prefix|..] else s
  }

  // A suffix is what is left after some text.
  lemma HasSuffixExact(s: string, suffix: string)
    ensures HasSuffix(s, suffix) <==> exists head :: s == head + suffix
  {
    if HasSuffix(s, suffix) {
      assert s == s[..|s| - |suffix|] + suffix;
    }
  }

  lemma TrimPrefixExact(s: string, prefix: string)
    ensures TrimPrefix(prefix + s, prefix) == s
    ensures (forall tail :: s != prefix + tail) ==> TrimPrefix(s, prefix) == s
  {
    if prefix <= s {
      assert s == prefix + s[|prefix|..];
    }
  }

  predicate PartAt(s: string, part: string, i: nat) {
    i + |part| <= |s| && s[i..i + |part|] == part
  }

  predicate Contains(s: string, part: string) {
    exists i: nat | i <= |s| :: PartAt(s, part, i)
  }

  lemma ContainsExact(s: string, part: string)
    ensures Contains(s, part) <==> exists head, tail :: s == head + part + tail
  {
    if Contains(s, part) {
      var i :| 0 <= i <= |s| && PartAt(s, part, i);
      assert s == s[..i] + part + s[i + |part|..];
    }
    if head, tail :| s == head + part + tail {
      assert PartAt(s, part, |head|);
    }
  }

  // A part that occurs brings all its characters.
  lemma ContainsBrings(s: string, part: string, c: char)
    ensures Contains(s, part) && c in part ==> c in s
  {
    if Contains(s, part) && c in part {
      var i :| 0 <= i <= |s| && PartAt(s, part, i);
      var k :| 0 <= k < |part| && part[k] == c;
      assert s[i..i + |part|][k] == s[i + k];
    }
  }

  // Case folding, over the ASCII letters.
  function ToLower(c: char): char {
    if 'A' <= c <= 'Z' then c - 'A' + 'a' else c
  }

  function Fold(s: string): string {
    seq(|s|, i requires 0 <= i < |s| => ToLower(s[i]))
  }

  predicate EqualFold(s: string, t: string) {
    Fold(s) == Fold(t)
  }

  lemma SameLower(c: char, d: char)
    ensures ToLower(c) == ToLower(d) <==>
            c == d || ('A' <= c <= 'Z' && d as int == c as int + 32) || ('A' <= d <= 'Z' && c as int == d as int + 32)
  {
  }

  // Texts are equal under folding when they differ in nothing but the case of letters.
  lemma EqualFoldExact(s: string, t: string)
    ensures EqualFold(s, t) <==>
            && |s| == |t|
            && forall i :: 0 <= i < |s| ==>
                 || s[i] == t[i]
                 || ('A' <= s[i] <= 'Z' && t[i] as int == s[i] as int + 32)
                 || ('A' <= t[i] <= 'Z' && s[i] as int == t[i] as int + 32)
  {
    forall i | 0 <= i < |s| && i < |t|
      ensures Fold(s)[i] == Fold(t)[i] <==>
              || s[i] == t[i]
              || ('A' <= s[i] <= 'Z' && t[i] as int == s[i] as int + 32)
              || ('A' <= t[i] <= 'Z' && s[i] as int == t[i] as int + 32)
    {
      SameLower(s[i], t[i]);
    }
    assert |Fold(s)| == |s| && |Fold(t)| == |t|;
  }

  function Split(s: string, sep: char): (parts: seq<string>)
    ensures |parts| >= 1
  {
    if s == "" then [""]
    else
      var rest := Split(s[1..], sep);
      if s[0] == sep then [""] + rest else [[s[0]] + rest[0]] + rest[1..]
  }

  function Join(parts: seq<string>, sep: char): string
    requires |parts| >= 1
  {
    if |parts| == 1 then parts[0] else parts[0] + [sep] + Join(parts[1..], sep)
  }

  lemma JoinMore(head: string, parts: seq<string>, sep: char)
    requires |parts| >= 1
    ensures Join([head] + parts, sep) == head + [sep] + Join(parts, sep)
  {
    assert ([head] + parts)[1..] == parts;
  }

  // Splitting and joining are inverse, and no part contains the separator.
  lemma {:induction false} SplitThenJoin(s: string, sep: char)
    ensures Join(Split(s, sep), sep) == s
    ensures forall i :: 0 <= i < |Split(s, sep)| ==> sep !in Split(s, sep)[i]
  {
    if s != "" {
      SplitThenJoin(s[1..], sep);
      var rest := Split(s[1..], sep);
      assert s == [s[0]] + s[1..];
      if s[0] == sep {
        assert ([""] + rest)[1..] == rest;
      } else {
        var parts := [[s[0]] + rest[0]] + rest[1..];
        assert parts[1..] == rest[1..];
        if |rest| > 1 {
          assert Join(parts, sep) == [s[0]] + Join(rest, sep);
        }
      }
    }
  }

  lemma {:induction false} SplitHead(head: string, tail: string, sep: char)
    requires sep !in head
    ensures Split(head + [sep] + tail, sep) == [head] + Split(tail, sep)
  {
    var s := head + [sep] + tail;
    if head == "" {
      assert s[1..] == tail;
    } else {
      assert s[1..] == head[1..] + [sep] + tail;
      SplitHead(head[1..], tail, sep);
      assert [head[0]] + head[1..] == head;
    }
  }

  lemma {:induction false} SplitWhole(s: string, sep: char)
    requires sep !in s
    ensures Split(s, sep) == [s]
  {
    if s != "" {
      SplitWhole(s[1..], sep);
      assert [s[0]] + s[1..] == s;
    }
  }

  lemma {:induction false} JoinThenSplit(parts: seq<string>, sep: char)
    requires |parts| >= 1
    requires forall i :: 0 <= i < |parts| ==> sep !in parts[i]
    ensures Split(Join(parts, sep), sep) == parts
  {
    if |parts| == 1 {
      SplitWhole(parts[0], sep);
    } else {
      JoinThenSplit(parts[1..], sep);
      SplitHead(parts[0], Join(parts[1..], sep), sep);
      assert [parts[0]] + parts[1..] == parts;
    }
  }

  // Splitting around a separator gives the parts of both sides.
  lemma {:induction false} SplitAcross(a: string, b: string, sep: char)
    ensures |Split(a + [sep] + b, sep)| == |Split(a, sep)| + |Split(b, sep)|
  {
    var whole := a + [sep] + b;
    if a == "" {
      assert whole[1..] == b;
    } else {
      assert whole[1..] == a[1..] + [sep] + b;
      SplitAcross(a[1..], b, sep);
    }
  }

  // The text after the last separator is determined by the whole.
  lemma LastSeparator(a: string, x: string, b: string, y: string, sep: char)
    requires sep !in x && sep !in y
    requires a + [sep] + x == b + [sep] + y
    ensures a == b && x == y
  {
    var s := a + [sep] + x;
    assert s[|a|] == sep && s[|b|] == sep;
    assert |a| == |b|;
    assert s[..|a|] == a && s[..|b|] == b;
    assert s[|a| + 1..] == x && s[|b| + 1..] == y;
  }

  // ----- decimal numbers

  predicate IsDigit(c: char) {
    '0' <= c <= '9'
  }

  function Digit(d: nat): (c: char)
    requires d < 10
    ensures IsDigit(c)
  {
    '0' + d as char
  }

  function DigitValue(c: char): (d: nat)
    requires IsDigit(c)
    ensures d < 10
  {
    (c - '0') as nat
  }

  function NatToString(n: nat): (s: string)
    ensures |s| >= 1
    ensures forall c :: c in s ==> IsDigit(c)
  {
    if n < 10 then [Digit(n)] else NatToString(n / 10) + [Digit(n % 10)]
  }

  // strconv.Itoa and strconv.FormatInt in base 10
  function Itoa(n: int): string {
    if n < 0 then "-" + NatToString(-n) else NatToString(n)
  }

  predicate AllDigits(s: string) {
    s != "" && forall c :: c in s ==> IsDigit(c)
  }

  function DigitsValue(s: string): nat
    requires AllDigits(s)
  {
    var last := DigitValue(s[|s| - 1]);
    if |s| == 1 then last else 10 * DigitsValue(s[..|s| - 1]) + last
  }

  // strconv.Atoi with its error dropped: 0 for malformed text, the nearest bound for an overflow.
  function Atoi(s: string): int {
    if s != "" && (s[0] == '-' || s[0] == '+') then
      if !AllDigits(s[1..]) then 0
      else if s[0] == '+' then Min(DigitsValue(s[1..]), MAX_INT)
      else -Min(DigitsValue(s[1..]), MAX_INT + 1)
    else if AllDigits(s) then Min(DigitsValue(s), MAX_INT) else 0
  }

  function Min(a: int, b: int): int {
    if a <= b then a else b
  }

  lemma {:induction false} PrintThenParse(n: nat)
    ensures AllDigits(NatToString(n)) && DigitsValue(NatToString(n)) == n
  {
    if n >= 10 {
      PrintThenParse(n / 10);
      var s := NatToString(n);
      assert s[..|s| - 1] == NatToString(n / 10);
    }
  }

  // Numbers are printed as in school: the digits of n, then one more.
  lemma Positional(n: int, d: nat)
    requires d < 10
    ensures n >= 1 ==> Itoa(10 * n + d) == Itoa(n) + ["0123456789"[d]]
    ensures n <= -1 ==> Itoa(10 * n - d) == Itoa(n) + ["0123456789"[d]]
    ensures Itoa(d) == ["0123456789"[d]]
    ensures n >= 1 ==> Itoa(-n) == "-" + Itoa(n)
  {
    assert forall k: nat :: k < 10 ==> Digit(k) == "0123456789"[k];
    if n >= 1 {
      assert (10 * n + d) / 10 == n && (10 * n + d) % 10 == d;
    } else if n <= -1 {
      assert -(10 * n - d) == 10 * -n + d;
      assert (10 * -n + d) / 10 == -n && (10 * -n + d) % 10 == d;
    }
  }

  // Parsing undoes printing for 64-bit integers and gives the nearest one for others; a plus sign is allowed.
  lemma AtoiItoa(n: int)
    ensures Atoi(Itoa(n)) == if n > MAX_INT then MAX_INT else if n < -MAX_INT - 1 then -MAX_INT - 1 else n
    ensures n >= 0 ==> Atoi("+" + Itoa(n)) == Atoi(Itoa(n))
  {
    PrintThenParse(if n < 0 then -n else n);
    if n < 0 {
      assert Itoa(n)[1..] == NatToString(-n);
    } else {
      assert Itoa(n)[0] in Itoa(n);
      assert ("+" + Itoa(n))[1..] == NatToString(n);
    }
  }

  lemma ItoaInjective(m: nat, n: nat)
    requires Itoa(m) == Itoa(n)
    ensures m == n
  {
    PrintThenParse(m);
    PrintThenParse(n);
  }
}
