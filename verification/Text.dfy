/** The string operations the backend uses, on ASCII text. */
module Text {
  import opened Common

  predicate IsSpace(c: char) {
    c == ' ' || '\t' <= c <= '\r' || 28 as char <= c <= 31 as char
  }

  function StripLeft(s: string): string {
    if s != [] && IsSpace(s[0]) then StripLeft(s[1..]) else s
  }

  function StripRight(s: string): string {
    if s != [] && IsSpace(s[|s| - 1]) then StripRight(s[..|s| - 1]) else s
  }

  /** str.strip() */
  function Strip(s: string): string {
    StripRight(StripLeft(s))
  }

  function LowerChar(c: char): char {
    if 'A' <= c <= 'Z' then (c as int + 32) as char else c
  }

  /** str.lower() */
  function Lower(s: string): (r: string)
    ensures |r| == |s|
    ensures forall i :: 0 <= i < |s| ==> r[i] == LowerChar(s[i])
  {
    seq(|s|, i requires 0 <= i < |s| => LowerChar(s[i]))
  }

  /** The ASCII white space of str.strip(), and the letters that str.lower() changes. */
  lemma AsciiTables(c: char)
    ensures IsSpace(c) <==> c as int in {9, 10, 11, 12, 13, 28, 29, 30, 31, 32}
    ensures LowerChar(c) as int - c as int == if 65 <= c as int <= 90 then 97 - 65 else 0
  {
  }

  /** s.strip().lower(), the form in which answers are compared. */
  function Clean(s: string): string {
    Lower(Strip(s))
  }

  lemma {:induction false} StripLeftShortens(s: string)
    ensures |StripLeft(s)| <= |s|
  {
    if s != [] && IsSpace(s[0]) {
      StripLeftShortens(s[1..]);
    }
  }

  lemma {:induction false} StripRightShortens(s: string)
    ensures |StripRight(s)| <= |s|
  {
    if s != [] && IsSpace(s[|s| - 1]) {
      StripRightShortens(s[..|s| - 1]);
    }
  }

  lemma CleanShortens(s: string)
    ensures |Clean(s)| <= |s|
  {
    StripLeftShortens(s);
    StripRightShortens(StripLeft(s));
  }

  predicate Trimmed(s: string) {
    s != [] ==> !IsSpace(s[0]) && !IsSpace(s[|s| - 1])
  }

  lemma {:induction false} StripLeftStarts(s: string)
    ensures StripLeft(s) != [] ==> !IsSpace(StripLeft(s)[0])
  {
    if s != [] && IsSpace(s[0]) {
      StripLeftStarts(s[1..]);
    }
  }

  lemma {:induction false} StripRightEnds(s: string)
    ensures StripRight(s) != [] ==> s != [] && StripRight(s)[0] == s[0] && !IsSpace(StripRight(s)[|StripRight(s)| - 1])
  {
    if s != [] && IsSpace(s[|s| - 1]) {
      StripRightEnds(s[..|s| - 1]);
    }
  }

  lemma StripTrims(s: string)
    ensures Trimmed(Strip(s))
  {
    StripLeftStarts(s);
    StripRightEnds(StripLeft(s));
  }

  lemma {:induction false} StripLeftSlice(s: string) returns (i: nat)
    ensures i <= |s| && StripLeft(s) == s[i..]
    ensures forall k :: 0 <= k < i ==> IsSpace(s[k])
  {
    i := 0;
    if s != [] && IsSpace(s[0]) {
      var rest := StripLeftSlice(s[1..]);
      i := rest + 1;
      assert forall k :: 1 <= k < i ==> s[1..][k - 1] == s[k];
    }
  }

  lemma {:induction false} StripRightSlice(s: string) returns (j: nat)
    ensures j <= |s| && StripRight(s) == s[..j]
    ensures forall k :: j <= k < |s| ==> IsSpace(s[k])
  {
    j := |s|;
    if s != [] && IsSpace(s[|s| - 1]) {
      j := StripRightSlice(s[..|s| - 1]);
    }
  }

  /** strip() cuts white space off both ends, all of it and nothing else. */
  lemma StripSlice(s: string) returns (i: nat, j: nat)
    ensures i <= j <= |s| && Strip(s) == s[i..j] && Trimmed(Strip(s))
    ensures forall k :: 0 <= k < i || j <= k < |s| ==> IsSpace(s[k])
  {
    StripTrims(s);
    i := StripLeftSlice(s);
    var n := StripRightSlice(s[i..]);
    j := i + n;
    assert forall k :: j <= k < |s| ==> s[i..][k - i] == s[k];
  }

  lemma StripIdempotent(s: string)
    ensures Strip(Strip(s)) == Strip(s)
    ensures Clean(Strip(s)) == Clean(s)
  {
    StripTrims(s);
  }

  /** Cleaning an already cleaned answer key changes nothing. */
  lemma CleanIdempotent(s: string)
    ensures Clean(Clean(s)) == Clean(s)
  {
    var t := Strip(s);
    StripTrims(s);
    var u := Lower(t);
    assert Trimmed(u);
    assert Strip(u) == u;
    assert Lower(u) == u;
  }

  predicate StartsWith(s: string, t: string) {
    |t| <= |s| && s[..|t|] == t
  }

  predicate Contains(s: string, t: string) {
    exists i :: 0 <= i <= |s| && StartsWith(s[i..], t)
  }

  lemma ContainsMeaning(s: string, t: string)
    ensures Contains(s, t) <==> exists i, j :: 0 <= i <= j <= |s| && s[i..j] == t
  {
    if Contains(s, t) {
      var i :| 0 <= i <= |s| && StartsWith(s[i..], t);
      assert s[i..i + |t|] == s[i..][..|t|];
    }
    if i, j :| 0 <= i <= j <= |s| && s[i..j] == t {
      assert s[i..][..|t|] == s[i..j];
    }
  }

  // ---- split and join ------------------------------------------------------

  /** s.split(sep) for a one-character separator. */
  function Split(s: string, sep: char): (parts: seq<string>)
    ensures parts != []
  {
    if s == [] then [""]
    else
      var rest := Split(s[1..], sep);
      if s[0] == sep then [""] + rest else [[s[0]] + rest[0]] + rest[1..]
  }

  /** sep.join(parts) */
  function Join(parts: seq<string>, sep: char): string {
    if parts == [] then ""
    else if |parts| == 1 then parts[0]
    else parts[0] + [sep] + Join(parts[1..], sep)
  }

  lemma {:induction false} SplitWhole(s: string, sep: char)
    requires sep !in s
    ensures Split(s, sep) == [s]
  {
    if s != [] {
      SplitWhole(s[1..], sep);
      assert [s[0]] + s[1..] == s;
    }
  }

  lemma {:induction false} SplitFirst(a: string, s: string, sep: char)
    requires sep !in a
    ensures Split(a + [sep] + s, sep) == [a] + Split(s, sep)
  {
    var t := a + [sep] + s;
    if a == [] {
      assert t[1..] == s;
    } else {
      SplitFirst(a[1..], s, sep);
      assert t[1..] == a[1..] + [sep] + s;
      assert [a[0]] + a[1..] == a;
    }
  }

  /** Fields without the separator survive a join and a split. */
  lemma {:induction false} SplitJoin(parts: seq<string>, sep: char)
    requires parts != []
    requires forall p :: p in parts ==> sep !in p
    ensures Split(Join(parts, sep), sep) == parts
  {
    if |parts| == 1 {
      SplitWhole(parts[0], sep);
    } else {
      SplitFirst(parts[0], Join(parts[1..], sep), sep);
      SplitJoin(parts[1..], sep);
    }
  }

  // ---- decimal integers ----------------------------------------------------

  function DigitChar(d: nat): char
    requires d < 10
  {
    ('0' as int + d) as char
  }

  /** str(n) of a non-negative integer. */
  function NatText(n: nat): string {
    if n < 10 then [DigitChar(n)] else NatText(n / 10) + [DigitChar(n % 10)]
  }

  /** str(n) */
  function IntText(n: int): string {
    if n < 0 then "-" + NatText(-n) else NatText(n)
  }

  predicate IsDigit(c: char) {
    '0' <= c <= '9'
  }

  function ParseNat(s: string): Option<nat> {
    if s == [] || !IsDigit(s[|s| - 1]) then None
    else
      var d := s[|s| - 1] as int - '0' as int;
      if |s| == 1 then Some(d)
      else match ParseNat(s[..|s| - 1])
        case None => None
        case Some(n) => Some(10 * n + d)
  }

  /** int(s): outer white space, an optional sign, then decimal digits. */
  function ParseInt(s: string): Option<int> {
    var t := Strip(s);
    if t == [] then None
    else
      var signed := t[0] == '-' || t[0] == '+';
      match ParseNat(if signed then t[1..] else t)
      case None => None
      case Some(n) => Some(if t[0] == '-' then 0 - n else n)
  }

  lemma {:induction false} NatTextDigits(n: nat)
    ensures NatText(n) != []
    ensures forall c :: c in NatText(n) ==> IsDigit(c)
  {
    if n >= 10 {
      NatTextDigits(n / 10);
    }
  }

  lemma {:induction false} ParseNatText(n: nat)
    ensures ParseNat(NatText(n)) == Some(n)
  {
    if n >= 10 {
      ParseNatText(n / 10);
      NatTextDigits(n / 10);
      var s := NatText(n);
      assert s[..|s| - 1] == NatText(n / 10);
    }
  }

  /** The text is decimal: one digit for each place, and a minus sign in front of a negative number. */
  lemma DecimalText(n: nat, d: nat)
    requires d < 10
    ensures IntText(d) == ["0123456789"[d]]
    ensures n > 0 ==> IntText(10 * n + d) == IntText(n) + ["0123456789"[d]] && IntText(0 - n) == "-" + IntText(n)
  {
  }

  lemma {:induction false} StripLeftAround(a: string, s: string)
    requires s != [] && !IsSpace(s[0]) && forall i :: 0 <= i < |a| ==> IsSpace(a[i])
    ensures StripLeft(a + s) == s
  {
    if a == [] {
      assert a + s == s;
    } else {
      assert (a + s)[1..] == a[1..] + s;
      StripLeftAround(a[1..], s);
    }
  }

  lemma {:induction false} StripRightAround(s: string, b: string)
    requires s != [] && !IsSpace(s[|s| - 1]) && forall i :: 0 <= i < |b| ==> IsSpace(b[i])
    ensures StripRight(s + b) == s
  {
    if b == [] {
      assert s + b == s;
    } else {
      assert (s + b)[..|s + b| - 1] == s + b[..|b| - 1];
      StripRightAround(s, b[..|b| - 1]);
    }
  }

  lemma StripAround(a: string, t: string, b: string)
    requires t != [] && Trimmed(t)
    requires forall i :: 0 <= i < |a| ==> IsSpace(a[i])
    requires forall i :: 0 <= i < |b| ==> IsSpace(b[i])
    ensures Strip(a + t + b) == t
  {
    assert a + t + b == a + (t + b);
    StripLeftAround(a, t + b);
    StripRightAround(t, b);
  }

  lemma Signed(sign: string, n: nat)
    requires sign == "" || sign == "+" || sign == "-"
    ensures var t := sign + NatText(n);
            t != [] && Trimmed(t) && ParseNat(if t[0] == '-' || t[0] == '+' then t[1..] else t) == Some(n) &&
            (t[0] == '-' <==> sign == "-")
  {
    hide ParseNat;
    NatTextDigits(n);
    ParseNatText(n);
    var s, t := NatText(n), sign + NatText(n);
    assert s[0] in s && s[|s| - 1] in s;
    assert t[|t| - 1] == s[|s| - 1];
    assert t[|sign|..] == s;
    assert sign == "" ==> t == s;
  }

  /** White space around the digits and a plus sign in front make no difference to int(). */
  lemma ParseIntSpaced(a: string, sign: string, n: nat, b: string)
    requires sign == "" || sign == "+" || sign == "-"
    requires forall i :: 0 <= i < |a| ==> IsSpace(a[i])
    requires forall i :: 0 <= i < |b| ==> IsSpace(b[i])
    ensures ParseInt(a + (sign + NatText(n)) + b) == Some(if sign == "-" then 0 - n else n)
  {
    hide ParseNat, Strip, NatText, IsSpace, Trimmed;
    Signed(sign, n);
    StripAround(a, sign + NatText(n), b);
  }

  /** int(str(n)) == n for every integer. */
  lemma ParseIntText(n: int)
    ensures ParseInt(IntText(n)) == Some(n)
  {
    hide ParseInt, NatText;
    var m, sign := if n < 0 then -n else n, if n < 0 then "-" else "";
    ParseIntSpaced("", sign, m, "");
    assert "" + (sign + NatText(m)) + "" == IntText(n);
  }

  lemma IntTextChars(n: int)
    ensures forall c :: c in IntText(n) ==> IsDigit(c) || c == '-'
  {
    NatTextDigits(if n < 0 then -n else n);
  }
}
