/** Printing numbers (src/util/printf.h): a digit loop fills a 32-byte buffer from
    the low end, a second loop emits it backwards. */
module Printf {
  import opened Bitmap
  import opened Transcript
  import opened Terminal

  function DigitChar(d: nat): CChar
    requires d < 16
  {
    if d < 10 then 48 + d else 97 + (d - 10)
  }

  /** What a character stands for as a digit in lower case; -1 for every other character. */
  function DigitValue(c: CChar): int {
    if '0' as int <= c <= '9' as int then c - '0' as int
    else if 'a' as int <= c <= 'f' as int then c - 'a' as int + 10
    else -1
  }

  lemma DigitOf(d: nat)
    requires d < 16
    ensures DigitValue(DigitChar(d)) == d
  {
  }

  /** The digits of a positive number, highest first; none for 0. */
  ghost function Digits(n: nat, base: nat): seq<CChar>
    requires 2 <= base <= 16
    decreases n
  {
    if n == 0 then [] else DivSmaller(n, base); Digits(n / base, base) + [DigitChar(n % base)]
  }

  lemma DivSmaller(n: nat, base: nat)
    requires 2 <= base <= 16 && n > 0
    ensures n == n / base * base + n % base && 0 <= n % base < base
    ensures 0 <= n / base < n && 2 * (n / base) <= n
    ensures n / base == 0 ==> n % base == n
  {
  }

  /** Reading digits back, highest first. */
  ghost function Value(s: seq<CChar>, base: nat): int {
    if s == [] then 0 else Value(s[..|s| - 1], base) * base + DigitValue(s[|s| - 1])
  }

  lemma ValueAppend(s: seq<CChar>, base: nat, q: nat, d: nat)
    requires d < 16 && Value(s, base) == q
    ensures Value(s + [DigitChar(d)], base) == q * base + d
  {
    assert (s + [DigitChar(d)])[..|s|] == s;
    DigitOf(d);
  }

  ghost function Pow2(k: nat): nat {
    if k == 0 then 1 else 2 * Pow2(k - 1)
  }

  /** All are digits of the base, and the first is not 0. */
  ghost predicate ProperDigits(s: seq<CChar>, base: nat) {
    && (forall i :: 0 <= i < |s| ==> 0 <= DigitValue(s[i]) < base)
    && (s != [] ==> DigitValue(s[0]) != 0)
  }

  /** What is printed reads back as the number and has no leading zero. */
  lemma {:induction false} DigitsRoundTrip(n: nat, base: nat)
    requires 2 <= base <= 16
    ensures Value(Digits(n, base), base) == n && ProperDigits(Digits(n, base), base)
    decreases n
  {
    hide DigitChar, DigitValue, ProperDigits, Value;
    if n == 0 {
      NoDigits(base);
    } else {
      DivSmaller(n, base);
      var q, d := n / base, n % base;
      DigitsRoundTrip(q, base);
      ValueAppend(Digits(q, base), base, q, d);
      DigitsSome(q, base);
      ProperAppend(Digits(q, base), base, d);
    }
  }

  lemma NoDigits(base: nat)
    ensures Value([], base) == 0 && ProperDigits([], base)
  {
  }

  lemma ProperAppend(s: seq<CChar>, base: nat, d: nat)
    requires ProperDigits(s, base) && base <= 16 && d < base && (s == [] ==> d != 0)
    ensures ProperDigits(s + [DigitChar(d)], base)
  {
    DigitOf(d);
  }

  lemma DigitsSome(n: nat, base: nat)
    requires 2 <= base <= 16
    ensures Digits(n, base) == [] <==> n == 0
  {
  }

  /** A number below 2^k has at most k digits. */
  lemma {:induction false} DigitsShort(n: nat, base: nat, k: nat)
    requires 2 <= base <= 16 && n < Pow2(k)
    ensures |Digits(n, base)| <= k
    decreases n
  {
    if n > 0 {
      DivSmaller(n, base);
      DigitsShort(n / base, base, k - 1);
    }
  }

  lemma WordBits()
    ensures Pow2(32) == WORD_LIMIT
  {
    assert Pow2(8) == 256;
    assert Pow2(16) == 256 * Pow2(8) by { Doubled(8, 8); }
    assert Pow2(32) == 0x1_0000 * Pow2(16) by { Doubled(16, 16); }
  }

  lemma {:induction false} Doubled(a: nat, b: nat)
    ensures Pow2(a + b) == Pow2(a) * Pow2(b)
  {
    if b > 0 {
      Doubled(a, b - 1);
      assert Pow2(a + b) == 2 * (Pow2(a) * Pow2(b - 1)) == Pow2(a) * (2 * Pow2(b - 1));
    }
  }

  ghost function Reversed(s: seq<CChar>): seq<CChar> {
    if s == [] then [] else Reversed(s[1..]) + [s[0]]
  }

  lemma {:induction false} ReversedAppend(s: seq<CChar>, c: CChar)
    ensures Reversed(s + [c]) == [c] + Reversed(s)
  {
    if s == [] {
      assert [c][1..] == [];
    } else {
      assert (s + [c])[1..] == s[1..] + [c];
      ReversedAppend(s[1..], c);
    }
  }

  /** The transcript that the next character continues: leaving scrollback mode clears the screen first. */
  ghost function Base(paper: Paper, inScrollbackMode: bool): Paper
    requires PaperOk(paper)
  {
    if inScrollbackMode then Cleared(paper) else paper
  }

  /** The digit loop: the buffer, which never runs over, ends up with the digits, lowest first. */
  method FillDigits(n: Word, base: nat, buf: array<CChar>) returns (idx: nat)
    requires 2 <= base <= 16 && buf.Length == 32
    modifies buf
    ensures idx <= 32 && Reversed(buf[..idx]) == Digits(n, base)
  {
    var num := n;
    idx := 0;
    WordBits();
    DigitsShort(n, base, 32);
    while num > 0
      invariant 0 <= num <= n && idx <= 32
      invariant Digits(n, base) == Digits(num, base) + Reversed(buf[..idx])
      decreases num
    {
      ghost var done := buf[..idx];
      DivSmaller(num, base);
      DigitStep(num, base, done);
      ReversedLength(done);
      buf[idx] := DigitChar(num % base);
      assert buf[..idx + 1] == done + [DigitChar(num % base)];
      idx := idx + 1;
      num := num / base;
    }
  }

  lemma DigitStep(num: nat, base: nat, done: seq<CChar>)
    requires 2 <= base <= 16 && num > 0
    ensures |Digits(num, base)| > 0
    ensures Digits(num, base) + Reversed(done) == Digits(num / base, base) + Reversed(done + [DigitChar(num % base)])
  {
    ReversedAppend(done, DigitChar(num % base));
  }

  lemma {:induction false} ReversedLength(s: seq<CChar>)
    ensures |Reversed(s)| == |s|
  {
    if s != [] {
      ReversedLength(s[1..]);
    }
  }

  /** The emitting loop. */
  method EmitReversed(t: Terminal, buf: array<CChar>, idx: nat)
    requires t.Valid() && 0 < idx <= buf.Length
    requires buf as object != t.framebuffer && buf as object != t.scrollbackBuffer
    modifies t, t.framebuffer, t.scrollbackBuffer
    ensures t.Valid() && !t.inScrollbackMode
    ensures t.paper == PutAll(Base(old(t.paper), old(t.inScrollbackMode)), Reversed(old(buf[..idx])))
  {
    hide Put, PutAll, Cleared, Terminal.HistoryOk, Terminal.Screen;
    ghost var p, text := Base(t.paper, t.inScrollbackMode), buf[..idx];
    ClearedOk(t.paper);
    PutAllNone(p);
    var j := idx - 1;
    while j >= 0
      invariant -1 <= j < idx
      invariant t.Valid() && buf[..idx] == text
      invariant j == idx - 1 ==> t.paper == old(t.paper) && t.inScrollbackMode == old(t.inScrollbackMode)
      invariant j < idx - 1 ==> !t.inScrollbackMode && t.paper == PutAll(p, Reversed(text[j + 1..]))
    {
      assert text[j..] == [text[j]] + text[j + 1..];
      PutAllAppend(p, Reversed(text[j + 1..]), text[j]);
      assert j == idx - 1 ==> text[j + 1..] == [];
      t.PutChar(buf[j]);
      j := j - 1;
    }
    assert text[0..] == text;
  }

  /** The text appended to the transcript by one of the printing calls. */
  ghost predicate Printed(before: Paper, inScrollbackMode: bool, after: Paper, text: seq<CChar>)
    requires PaperOk(before)
  {
    PaperOk(Base(before, inScrollbackMode)) && after == PutAll(Base(before, inScrollbackMode), text)
  }

  /** What is printed for an unsigned number. */
  ghost function Numeral(n: nat, base: nat): seq<CChar>
    requires 2 <= base <= 16
  {
    if n == 0 then [48] else Digits(n, base)
  }

  /** The numeral reads back as the number, at most 32 characters long, and starts with 0 only for 0. */
  lemma NumeralRoundTrip(n: Word, base: nat)
    requires 2 <= base <= 16
    ensures var s := Numeral(n, base);
            && 0 < |s| <= 32 && Value(s, base) == n
            && (DigitValue(s[0]) == 0 <==> n == 0)
            && (forall i :: 0 <= i < |s| ==> 0 <= DigitValue(s[i]) < base)
  {
    WordBits();
    DigitsShort(n, base, 32);
    DigitsRoundTrip(n, base);
    DigitsSome(n, base);
    if n == 0 {
      ValueAppend([], base, 0, 0);
      assert [] + [DigitChar(0)] == [48];
    }
  }

  /** print_uint for base 10, print_hex for base 16. */
  method PrintUnsigned(t: Terminal, num: Word, base: nat)
    requires t.Valid() && 2 <= base <= 16
    modifies t, t.framebuffer, t.scrollbackBuffer
    ensures t.Valid() && !t.inScrollbackMode
    ensures Printed(old(t.paper), old(t.inScrollbackMode), t.paper, Numeral(num, base))
  {
    hide Put, PutAll, Cleared, Terminal.HistoryOk, Terminal.Screen;
    ClearedOk(t.paper);
    if num == 0 {
      PutOne(Base(t.paper, t.inScrollbackMode), 48);
      t.PutChar(48);
      return;
    }
    var buf := new CChar[32](_ => 0);
    var idx := FillDigits(num, base, buf);
    ReversedLength(buf[..idx]);
    NumeralRoundTrip(num, base);
    EmitReversed(t, buf, idx);
  }

  lemma PutOne(p: Paper, c: CChar)
    requires PaperOk(p)
    ensures PutAll(p, [c]) == Put(p, c)
  {
    assert [] + [c] == [c];
    PutAllAppend(p, [], c);
  }

  /** What is printed for a signed number. */
  ghost function SignedNumeral(n: int): seq<CChar> {
    if n < 0 then [45] + Numeral(-n, 10) else Numeral(n, 10)
  }

  /** Reading a signed number back. */
  ghost function SignedValue(s: seq<CChar>): int {
    if s != [] && s[0] == '-' as int then -Value(s[1..], 10) else Value(s, 10)
  }

  /** What is printed for a signed number reads back as it, begins with a minus sign exactly for negative numbers,
      and has no plus sign, blank or leading zero. */
  lemma SignedRoundTrip(n: int)
    requires -0x8000_0000 < n < 0x8000_0000
    ensures var s := SignedNumeral(n);
            && s != [] && SignedValue(s) == n
            && (s[0] == '-' as int <==> n < 0)
            && var digits := if n < 0 then s[1..] else s;
               && digits != [] && (DigitValue(digits[0]) == 0 <==> n == 0)
               && forall i :: 0 <= i < |digits| ==> 0 <= DigitValue(digits[i]) < 10
  {
    hide Numeral, Value;
    NumeralRoundTrip(if n < 0 then -n else n, 10);
    if n < 0 {
      assert SignedNumeral(n)[1..] == Numeral(-n, 10);
    } else {
      assert 0 <= DigitValue(Numeral(n, 10)[0]);
    }
  }

  /** print_int; the negation of the least int overflows, so that one is excluded. */
  method PrintInt(t: Terminal, num: int)
    requires t.Valid() && -0x8000_0000 < num < 0x8000_0000
    modifies t, t.framebuffer, t.scrollbackBuffer
    ensures t.Valid() && !t.inScrollbackMode
    ensures Printed(old(t.paper), old(t.inScrollbackMode), t.paper, SignedNumeral(num))
  {
    hide Put, PutAll, Cleared, Numeral, Terminal.HistoryOk, Terminal.Screen;
    ClearedOk(t.paper);
    if num < 0 {
      ghost var p := Base(t.paper, t.inScrollbackMode);
      t.PutChar(45);
      PrintUnsigned(t, -num, 10);
      PutAllFirst(p, 45, Numeral(-num, 10));
    } else {
      PrintUnsigned(t, num, 10);
    }
  }

  lemma PutAllFirst(p: Paper, c: CChar, s: seq<CChar>)
    requires PaperOk(p)
    ensures PutAll(p, [c] + s) == PutAll(Put(p, c), s)
  {
    assert ([c] + s)[1..] == s;
  }
}
