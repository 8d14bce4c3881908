/** Decimal integers as printed by an `ostream` (Algo.cpp prints the
    elapsed milliseconds) and as read back by Python's `int()`, and the two
    ways the Python benchmark scripts cut text: into lines (iterating over a file)
    and into whitespace-separated fields (`str.split()`). */
module Text {
  import opened Wrappers
  import opened Seqs

  predicate IsDigit(c: char)
  {
    '0' <= c <= '9'
  }

  /** The ASCII characters Python's `str.split()` and `str.strip()` treat
      as whitespace. */
  predicate IsSpace(c: char)
  {
    c == ' ' || 9 <= c as int <= 13 || 28 <= c as int <= 31
  }

  predicate AllDigits(s: string)
  {
    forall i :: 0 <= i < |s| ==> IsDigit(s[i])
  }

  predicate NoSpace(s: string)
  {
    forall i :: 0 <= i < |s| ==> !IsSpace(s[i])
  }

  function DigitChar(d: nat): (c: char)
    requires d < 10
    ensures IsDigit(c) && c as int - '0' as int == d
  {
    ('0' as int + d) as char
  }

  /** The decimal digits of `n`, without leading zeros. */
  function ShowNat(n: nat): (s: string)
    ensures |s| > 0 && AllDigits(s)
    ensures |s| > 1 ==> s[0] != '0'
  {
    if n < 10 then [DigitChar(n)] else ShowNat(n / 10) + [DigitChar(n % 10)]
  }

  /** `operator<<` on an integer: a minus sign for a negative value, then
      the digits. */
  function ShowInt(i: int): (s: string)
    ensures |s| > 0 && NoSpace(s)
    ensures i >= 0 <==> IsDigit(s[0])
  {
    if i < 0 then "-" + ShowNat(-i) else ShowNat(i)
  }

  /** The value of a string of decimal digits. */
  function DigitsValue(s: string): (v: nat)
    requires AllDigits(s)
  {
    if s == [] then 0 else 10 * DigitsValue(s[..|s| - 1]) + (s[|s| - 1] as int - '0' as int)
  }

  lemma {:induction false} DigitsOfShowNat(n: nat)
    ensures DigitsValue(ShowNat(n)) == n
  {
    if n >= 10 {
      DigitsOfShowNat(n / 10);
      var s := ShowNat(n);
      assert s[..|s| - 1] == ShowNat(n / 10);
    }
  }

  /** `str.strip()` on ASCII whitespace. */
  function Strip(s: string): (r: string)
    ensures |r| <= |s|
    ensures r != [] ==> !IsSpace(r[0]) && !IsSpace(r[|r| - 1])
    ensures NoSpace(s) ==> r == s
  {
    if s == [] then []
    else if IsSpace(s[0]) then Strip(s[1..])
    else if IsSpace(s[|s| - 1]) then Strip(s[..|s| - 1])
    else s
  }

  /** Python's `int()` on a string: surrounding whitespace, an optional
      sign, then at least one digit; anything else raises, which is `None`
      here. */
  function ParseInt(s: string): (r: Option<int>)
    ensures r.Some? ==> exists i :: 0 <= i < |Strip(s)| && IsDigit(Strip(s)[i])
  {
    var t := Strip(s);
    if t == [] then None
    else if t[0] == '-' || t[0] == '+' then
      if |t| > 1 && AllDigits(t[1..]) then
        assert IsDigit(t[1]);
        var v: int := DigitsValue(t[1..]);
        Some(if t[0] == '-' then -v else v)
      else None
    else if AllDigits(t) then Some(DigitsValue(t))
    else None
  }

  /** The integer `operator<<` prints is the one `int()` reads back. */
  lemma ParseShowInt(i: int)
    ensures ParseInt(ShowInt(i)) == Some(i)
  {
    var s := ShowInt(i);
    assert Strip(s) == s;
    if i < 0 {
      DigitsOfShowNat(-i);
      assert s[1..] == ShowNat(-i);
    } else {
      DigitsOfShowNat(i);
    }
  }

  // ---------------------------------------------------------------------
  // fields

  /** The longest prefix of `s` without whitespace. */
  function Word(s: string): (w: string)
    ensures |w| <= |s| && w == s[..|w|] && NoSpace(w)
    ensures |w| < |s| ==> IsSpace(s[|w|])
  {
    if s == [] || IsSpace(s[0]) then [] else [s[0]] + Word(s[1..])
  }

  /** `str.split()` without arguments: the maximal runs of non-whitespace
      characters, in order. */
  function Fields(s: string): (fs: seq<string>)
    ensures forall k :: 0 <= k < |fs| ==> fs[k] != [] && NoSpace(fs[k])
    decreases |s|
  {
    if s == [] then []
    else if IsSpace(s[0]) then Fields(s[1..])
    else
      var w := Word(s);
      [w] + Fields(s[|w|..])
  }

  lemma {:induction false} WordOf(w: string, rest: string)
    requires NoSpace(w) && (rest == [] || IsSpace(rest[0]))
    ensures Word(w + rest) == w
  {
    if w != [] {
      assert (w + rest)[1..] == w[1..] + rest;
      WordOf(w[1..], rest);
    }
  }

  lemma FieldsOf(w: string, rest: string)
    requires w != [] && NoSpace(w) && (rest == [] || IsSpace(rest[0]))
    ensures Fields(w + rest) == [w] + Fields(rest)
  {
    WordOf(w, rest);
    assert (w + rest)[|w|..] == rest;
  }

  /** A word, one whitespace character and the rest split into the word
      and the fields of the rest. */
  lemma FieldsBeforeSpace(w: string, c: char, rest: string)
    requires w != [] && NoSpace(w) && IsSpace(c)
    ensures Fields(w + [c] + rest) == [w] + Fields(rest)
  {
    AppendAssoc(w, [c], rest);
    FieldsOf(w, [c] + rest);
    assert ([c] + rest)[1..] == rest;
  }

  lemma FieldsOfWords(a: string, b: string, c: string, x: char, y: char, z: char)
    requires a != [] && b != [] && c != [] && NoSpace(a) && NoSpace(b) && NoSpace(c)
    requires IsSpace(x) && IsSpace(y) && IsSpace(z)
    ensures Fields(a + [x] + b + [y] + c + [z]) == [a, b, c]
  {
    FieldsBeforeSpace(c, z, []);
    assert c + [z] + [] == c + [z];
    FieldsBeforeSpace(b, y, c + [z]);
    AppendAssoc(b + [y], c, [z]);
    FieldsBeforeSpace(a, x, b + [y] + c + [z]);
    AppendAssoc(a + [x], b + [y], c + [z]);
    AppendAssoc(a + [x], b, [y]);
    AppendAssoc(a + [x] + b + [y], c, [z]);
  }

  /** Three words joined by blanks and ended by a newline split back into
      the three words. */
  lemma FieldsOfThree(a: string, b: string, c: string)
    requires a != [] && b != [] && c != [] && NoSpace(a) && NoSpace(b) && NoSpace(c)
    ensures Fields(a + " " + b + " " + c + "\n") == [a, b, c]
  {
    FieldsOfWords(a, b, c, ' ', ' ', '\n');
    assert " " == [' '] && "\n" == ['\n'];
  }

  // ---------------------------------------------------------------------
  // lines

  /** The index of the first newline in `s`, or `|s|`. */
  function LineEnd(s: string): (n: nat)
    ensures n <= |s| && forall i :: 0 <= i < n ==> s[i] != '\n'
    ensures n < |s| ==> s[n] == '\n'
  {
    if s == [] || s[0] == '\n' then 0 else 1 + LineEnd(s[1..])
  }

  /** Iterating over a text file: each line with its newline, the last one
      without when the text does not end in a newline. */
  function Lines(s: string): (ls: seq<string>)
    ensures forall k :: 0 <= k < |ls| ==> ls[k] != []
    decreases |s|
  {
    if s == [] then []
    else
      var n := LineEnd(s);
      if n == |s| then [s] else [s[..n + 1]] + Lines(s[n + 1..])
  }

  function Concat(ls: seq<string>): (s: string)
    ensures ls == [] ==> s == []
  {
    if ls == [] then [] else ls[0] + Concat(ls[1..])
  }

  predicate IsLine(l: string)
  {
    |l| > 0 && l[|l| - 1] == '\n' && forall i :: 0 <= i < |l| - 1 ==> l[i] != '\n'
  }

  lemma LineEndOf(l: string, rest: string)
    requires IsLine(l)
    ensures LineEnd(l + rest) == |l| - 1
  {
    if |l| > 1 {
      assert (l + rest)[1..] == l[1..] + rest;
      LineEndOf(l[1..], rest);
    }
  }

  /** Text written one line at a time reads back as those lines. */
  lemma {:induction false} LinesOfConcat(ls: seq<string>)
    requires forall k :: 0 <= k < |ls| ==> IsLine(ls[k])
    ensures Lines(Concat(ls)) == ls
  {
    if ls != [] {
      var s := Concat(ls);
      assert s == ls[0] + Concat(ls[1..]);
      LineEndOf(ls[0], Concat(ls[1..]));
      assert s[..|ls[0]|] == ls[0];
      assert s[|ls[0]|..] == Concat(ls[1..]);
      LinesOfConcat(ls[1..]);
    }
  }

  /** Writing one more line appends it to the text. */
  lemma {:induction false} ConcatSnoc(ls: seq<string>, l: string)
    ensures Concat(ls + [l]) == Concat(ls) + l
  {
    if ls == [] {
      assert ls + [l] == [l];
      assert Concat([l]) == l + Concat([]);
    } else {
      assert (ls + [l])[1..] == ls[1..] + [l];
      ConcatSnoc(ls[1..], l);
    }
  }

  /** `s` has no character `c`. */
  predicate Lacks(s: string, c: char)
  {
    forall i :: 0 <= i < |s| ==> s[i] != c
  }

  lemma LacksCat(a: string, b: string, c: char)
    requires Lacks(a, c) && Lacks(b, c)
    ensures Lacks(a + b, c)
  {
    forall i | 0 <= i < |a + b|
      ensures (a + b)[i] != c
    {
      if i >= |a| {
        assert (a + b)[i] == b[i - |a|];
      }
    }
  }

  lemma LacksOfNoSpace(s: string, c: char)
    requires NoSpace(s) && IsSpace(c)
    ensures Lacks(s, c)
  {
    forall i | 0 <= i < |s|
      ensures s[i] != c
    {
      assert !IsSpace(s[i]);
    }
  }

  lemma LineOf(s: string)
    requires Lacks(s, '\n')
    ensures IsLine(s + "\n")
  {
    forall i | 0 <= i < |s|
      ensures (s + "\n")[i] != '\n'
    {
      assert (s + "\n")[i] == s[i];
    }
  }

  /** Text lines written one at a time, none holding `c`, hold no `c`
      together. */
  lemma {:induction false} LacksConcat(ls: seq<string>, c: char)
    requires forall k :: 0 <= k < |ls| ==> Lacks(ls[k], c)
    ensures Lacks(Concat(ls), c)
  {
    if ls != [] {
      LacksConcat(ls[1..], c);
      LacksCat(ls[0], Concat(ls[1..]), c);
    }
  }

  /** Reading a file in text mode with universal newlines: `"\r\n"` and a
      lone `'\r'` both read as `'\n'`. */
  function UniversalNewlines(s: string): (r: string)
    ensures |r| <= |s|
    ensures Lacks(r, '\r')
  {
    if s == [] then []
    else if s[0] == '\r' then
      var rest := if |s| > 1 && s[1] == '\n' then s[2..] else s[1..];
      ['\n'] + UniversalNewlines(rest)
    else [s[0]] + UniversalNewlines(s[1..])
  }

  /** Text without a carriage return reads as it was written. */
  lemma {:induction false} UniversalOfPlain(s: string)
    requires Lacks(s, '\r')
    ensures UniversalNewlines(s) == s
  {
    if s != [] {
      UniversalOfPlain(s[1..]);
    }
  }

  /** Plain text in front passes through unchanged. */
  lemma {:induction false} UniversalAfterPlain(a: string, t: string)
    requires Lacks(a, '\r')
    ensures UniversalNewlines(a + t) == a + UniversalNewlines(t)
  {
    if a != [] {
      assert a[0] != '\r';
      assert (a + t)[0] == a[0] && (a + t)[1..] == a[1..] + t;
      assert UniversalNewlines(a + t) == [a[0]] + UniversalNewlines(a[1..] + t);
      UniversalAfterPlain(a[1..], t);
      AppendAssoc([a[0]], a[1..], UniversalNewlines(t));
      assert [a[0]] + a[1..] == a;
    } else {
      assert a + t == t;
    }
  }

  /** A carriage return not followed by a newline reads as a newline. */
  lemma UniversalOfReturn(r: char, rest: string)
    requires r == '\r' && rest != [] && rest[0] != '\n'
    ensures UniversalNewlines([r] + rest) == ['\n'] + UniversalNewlines(rest)
  {
    assert ([r] + rest)[1..] == rest;
  }

  /** A lone carriage return ends a line: `a`, `'\r'`, a nonempty `b` and
      a newline read as the two lines `a` and `b`. */
  lemma ReturnEndsLine(a: string, b: string)
    requires b != [] && Lacks(a, '\r') && Lacks(a, '\n') && Lacks(b, '\r') && Lacks(b, '\n')
    ensures Lines(UniversalNewlines(a + "\r" + b + "\n")) == [a + "\n", b + "\n"]
  {
    var nl, cr := "\n", "\r";
    var bl := b + nl;
    assert Lacks(nl, '\r');
    LacksCat(b, nl, '\r');
    UniversalOfPlain(bl);
    assert bl[0] == b[0];
    UniversalOfReturn(cr[0], bl);
    assert cr == [cr[0]];
    UniversalAfterPlain(a, cr + bl);
    AppendAssoc(a + cr, b, nl);
    AppendAssoc(a, cr, bl);
    var text := a + nl + bl;
    AppendAssoc(a, nl, bl);
    assert UniversalNewlines(a + cr + b + nl) == text;
    LineOf(a);
    LineOf(b);
    var ls := [a + nl, bl];
    assert Concat(ls) == text by {
      assert Concat(ls) == (a + nl) + (bl + Concat([]));
      assert bl + Concat([]) == bl;
    }
    LinesOfConcat(ls);
  }

  /** The text of each element, in order. */
  function Each<T>(xs: seq<T>, f: T -> string): (ls: seq<string>)
    ensures |ls| == |xs|
  {
    if xs == [] then [] else Each(xs[..|xs| - 1], f) + [f(xs[|xs| - 1])]
  }

  lemma {:induction false} EachAt<T>(xs: seq<T>, f: T -> string, k: nat)
    requires k < |xs|
    ensures Each(xs, f)[k] == f(xs[k])
  {
    var n := |xs|;
    if k < n - 1 {
      EachAt(xs[..n - 1], f, k);
    }
  }

  lemma EachSnoc<T>(xs: seq<T>, i: nat, f: T -> string)
    requires i < |xs|
    ensures Each(xs[..i + 1], f) == Each(xs[..i], f) + [f(xs[i])]
  {
    assert xs[..i + 1][..i] == xs[..i];
  }
}
