/** The Python `str` builtins the core relies on, defined over `seq<char>`:
    `isspace`, `strip`, `split()`, `split(sep, n)`, `find`, `in`, `replace`
    of one character by nothing, and `int()` on text. */
module PyStr {
  import opened Common

  /** `c.isspace()`: the characters Python treats as whitespace. */
  predicate IsSpace(c: char) {
    '\t' <= c <= '\r' || '\U{1c}' <= c <= '\U{1f}' || c == ' ' || c == '\U{85}' || c == '\U{a0}'
    || c == '\U{1680}' || '\U{2000}' <= c <= '\U{200a}' || c == '\U{2028}' || c == '\U{2029}'
    || c == '\U{202f}' || c == '\U{205f}' || c == '\U{3000}'
  }

  /** Number of whitespace characters at the front of `s`. */
  function LeadingSpaces(s: string): (k: nat)
    ensures k <= |s|
    ensures forall i :: 0 <= i < k ==> IsSpace(s[i])
    ensures k < |s| ==> !IsSpace(s[k])
  {
    if |s| > 0 && IsSpace(s[0]) then 1 + LeadingSpaces(s[1..]) else 0
  }

  /** Number of whitespace characters at the end of `s`. */
  function TrailingSpaces(s: string): (k: nat)
    ensures k <= |s|
    ensures forall i :: |s| - k <= i < |s| ==> IsSpace(s[i])
    ensures k < |s| ==> !IsSpace(s[|s| - 1 - k])
  {
    if |s| > 0 && IsSpace(s[|s| - 1]) then 1 + TrailingSpaces(s[..|s| - 1]) else 0
  }

  /** `s.strip()`: `s` without its leading and trailing whitespace. */
  function Strip(s: string): (r: string)
    ensures |r| <= |s|
    ensures r != [] ==> !IsSpace(r[0]) && !IsSpace(r[|r| - 1])
    ensures r == [] ==> forall i :: 0 <= i < |s| ==> IsSpace(s[i])
  {
    var t := s[LeadingSpaces(s)..];
    t[..|t| - TrailingSpaces(t)]
  }

  /** Index of the first whitespace character of `s`, or `|s|`. */
  function FirstSpace(s: string): (k: nat)
    ensures k <= |s|
    ensures forall i :: 0 <= i < k ==> !IsSpace(s[i])
    ensures k < |s| ==> IsSpace(s[k])
  {
    if |s| == 0 || IsSpace(s[0]) then 0 else 1 + FirstSpace(s[1..])
  }

  /** A non-empty run of non-whitespace characters: one element of `split()`. */
  predicate IsWord(w: string) {
    w != [] && forall j :: 0 <= j < |w| ==> !IsSpace(w[j])
  }

  /** `s.split()`: the maximal runs of non-whitespace characters, in order. */
  function Words(s: string): seq<string>
    decreases |s|
  {
    var t := s[LeadingSpaces(s)..];
    if t == [] then []
    else
      var k := FirstSpace(t);
      [t[..k]] + Words(t[k..])
  }

  /** Every piece `split()` returns is a non-empty run without whitespace. */
  lemma {:induction false} WordsAreWords(s: string)
    ensures forall i :: 0 <= i < |Words(s)| ==> IsWord(Words(s)[i])
    decreases |s|
  {
    var t := s[LeadingSpaces(s)..];
    if t != [] {
      var k := FirstSpace(t);
      var w := t[..k];
      assert IsWord(w) by {
        assert t[0] == s[LeadingSpaces(s)];
        assert forall j :: 0 <= j < |w| ==> w[j] == t[j];
      }
      WordsAreWords(t[k..]);
      AllWordsCons(w, Words(t[k..]));
    }
  }

  lemma AllWordsCons(w: string, ws: seq<string>)
    requires IsWord(w) && forall i :: 0 <= i < |ws| ==> IsWord(ws[i])
    ensures forall i :: 0 <= i < |[w] + ws| ==> IsWord(([w] + ws)[i])
  {
    forall i | 0 <= i < |[w] + ws| ensures IsWord(([w] + ws)[i]) {
      if i > 0 { assert ([w] + ws)[i] == ws[i - 1]; }
    }
  }

  /** `sub` occurs in `s` at index `i`. */
  predicate Occurs(s: string, sub: string, i: int) {
    0 <= i && i + |sub| <= |s| && s[i..i + |sub|] == sub
  }

  lemma OccursShift(s: string, sub: string, i: int)
    requires |s| > 0 && i >= 1
    ensures Occurs(s, sub, i) <==> Occurs(s[1..], sub, i - 1)
  {
    if i + |sub| <= |s| {
      assert s[1..][i - 1..i - 1 + |sub|] == s[i..i + |sub|];
    }
  }

  /** `s.find(sub)`: the first index at which `sub` occurs, or -1. */
  function Find(s: string, sub: string): (r: int)
    ensures -1 <= r
    ensures r >= 0 ==> Occurs(s, sub, r)
    ensures forall i :: 0 <= i && (r < 0 || i < r) ==> !Occurs(s, sub, i)
    decreases |s|
  {
    if |s| < |sub| then -1
    else if sub <= s then 0
    else
      var k := Find(s[1..], sub);
      assert forall i :: 1 <= i ==> (Occurs(s, sub, i) <==> Occurs(s[1..], sub, i - 1)) by {
        forall i | 1 <= i { OccursShift(s, sub, i); }
      }
      if k < 0 then -1 else k + 1
  }

  /** `sub in s`. */
  predicate Contains(s: string, sub: string) {
    Find(s, sub) >= 0
  }

  /** For a one-character needle, `find` fails exactly when the character is absent. */
  lemma FindChar(s: string, c: char)
    ensures Find(s, [c]) == -1 <==> c !in s
    ensures Find(s, [c]) >= 0 ==> Find(s, [c]) < |s| && s[Find(s, [c])] == c
  {
    var r := Find(s, [c]);
    if r >= 0 {
      assert s[r..r + 1] == [c];
      assert s[r] == c;
    }
    if c in s {
      var i :| 0 <= i < |s| && s[i] == c;
      assert s[i..i + 1] == [c];
      assert Occurs(s, [c], i);
      assert r >= 0;
    }
  }

  /** `s.split(sep)[0]`: the text before the first `sep`, or all of `s`. */
  function Field0(s: string, sep: string): string {
    var i := Find(s, sep);
    if i < 0 then s else s[..i]
  }

  lemma Field0Char(s: string, c: char)
    ensures c !in Field0(s, [c])
    ensures Field0(s, [c]) <= s
    ensures c in s ==> |Field0(s, [c])| < |s| && s[|Field0(s, [c])|] == c
  {
    FindChar(s, c);
    var i := Find(s, [c]);
    if i >= 0 {
      assert forall j :: 0 <= j < i ==> !Occurs(s, [c], j);
      forall j | 0 <= j < i ensures s[j] != c {
        assert !Occurs(s, [c], j);
        assert s[j..j + 1] == [s[j]];
      }
    }
  }

  /** `s.split(sep, n)` for a non-empty separator: at most `n` splits, left to right. */
  function SplitN(s: string, sep: string, n: nat): (parts: seq<string>)
    requires |sep| > 0
    ensures 1 <= |parts| <= n + 1
    decreases n
  {
    var i := Find(s, sep);
    if n == 0 || i < 0 then [s]
    else [s[..i]] + SplitN(s[i + |sep|..], sep, n - 1)
  }

  /** `s.replace(c, "")`: `s` with every `c` removed. */
  function RemoveChar(s: string, c: char): (r: string)
    ensures c !in r
    ensures |r| <= |s|
  {
    if s == [] then []
    else (if s[0] == c then [] else [s[0]]) + RemoveChar(s[1..], c)
  }

  predicate IsDigit(c: char) {
    '0' <= c <= '9'
  }

  /** The digits accepted by `int()` in base 10: digit groups joined by single underscores. */
  predicate DigitString(t: string) {
    && |t| > 0
    && IsDigit(t[0])
    && IsDigit(t[|t| - 1])
    && forall i :: 0 <= i < |t| ==> IsDigit(t[i]) || (t[i] == '_' && i + 1 < |t| && IsDigit(t[i + 1]))
  }

  /** The value of a digit string, underscores ignored. */
  function DigitsValue(t: string): nat {
    if t == [] then 0
    else if IsDigit(t[|t| - 1]) then 10 * DigitsValue(t[..|t| - 1]) + (t[|t| - 1] as int - '0' as int)
    else DigitsValue(t[..|t| - 1])
  }

  /** `int(s)` on a `str`: surrounding whitespace, an optional sign, then a digit string;
      `None` where Python raises `ValueError`. */
  function ParseInt(s: string): Option<int> {
    var t := Strip(s);
    if |t| > 0 && (t[0] == '+' || t[0] == '-') then
      if DigitString(t[1..]) then
        var v: int := DigitsValue(t[1..]);
        Some(if t[0] == '-' then -v else v)
      else None
    else if DigitString(t) then Some(DigitsValue(t))
    else None
  }

  /** `"%d" % n` for a natural number. */
  function Decimal(n: nat): (r: string)
    ensures |r| > 0
    ensures forall i :: 0 <= i < |r| ==> IsDigit(r[i])
  {
    var d := ['0' + (n % 10) as char];
    if n < 10 then d else Decimal(n / 10) + d
  }

  /** `int("%d" % n) == n`: printing a number and reading it back is the identity. */
  lemma {:induction false} ParseDecimal(n: nat)
    ensures ParseInt(Decimal(n)) == Some(n)
  {
    DecimalValue(n);
    var r := Decimal(n);
    assert LeadingSpaces(r) == 0;
    assert TrailingSpaces(r) == 0;
    assert Strip(r) == r;
  }

  lemma {:induction false} DecimalValue(n: nat)
    ensures DigitsValue(Decimal(n)) == n
  {
    var d := ['0' + (n % 10) as char];
    if n >= 10 {
      DecimalValue(n / 10);
      assert (Decimal(n / 10) + d)[..|Decimal(n / 10) + d| - 1] == Decimal(n / 10);
    }
  }

  /** Removing a character that does not occur changes nothing. */
  lemma {:induction false} RemoveAbsent(s: string, c: char)
    requires c !in s
    ensures RemoveChar(s, c) == s
  {
    if s != [] {
      RemoveAbsent(s[1..], c);
    }
  }

  /** `int()` of a single character succeeds exactly on a digit. */
  lemma OneCharInt(c: char)
    ensures ParseInt([c]).Some? <==> IsDigit(c)
  {
    if IsSpace(c) {
      assert Strip([c]) == [];
    } else {
      assert LeadingSpaces([c]) == 0 && TrailingSpaces([c]) == 0;
      assert Strip([c]) == [c];
    }
  }

  lemma {:induction false} LeadingSpacesAppend(a: string, b: string)
    ensures LeadingSpaces(a) < |a| ==> LeadingSpaces(a + b) == LeadingSpaces(a)
    ensures LeadingSpaces(a) == |a| ==> LeadingSpaces(a + b) == |a| + LeadingSpaces(b)
  {
    if a != [] {
      LeadingSpacesAppend(a[1..], b);
      assert (a + b)[0] == a[0] && (a + b)[1..] == a[1..] + b;
    } else {
      assert a + b == b;
    }
  }

  lemma {:induction false} FirstSpaceAppend(a: string, b: string)
    requires b == [] || IsSpace(b[0])
    ensures FirstSpace(a + b) == FirstSpace(a)
  {
    if a != [] {
      FirstSpaceAppend(a[1..], b);
      assert (a + b)[1..] == a[1..] + b;
    }
  }

  /** `(a + b).split()` is `a.split() + b.split()`. */
  predicate SplitsApart(a: string, b: string) {
    Words(a + b) == Words(a) + Words(b)
  }

  /** `(a + b).split()` is `a.split() + b.split()` when `b` starts with whitespace. */
  lemma {:induction false} WordsAppend(a: string, b: string)
    requires b == [] || IsSpace(b[0])
    ensures SplitsApart(a, b)
    decreases |a|, 1
  {
    if LeadingSpaces(a) == |a| {
      WordsAfterSpaces(a, b);
    } else {
      WordsAppendWord(a, b);
    }
  }

  /** The case of `WordsAppend` where `a` holds a word. */
  lemma {:induction false} WordsAppendWord(a: string, b: string)
    requires b == [] || IsSpace(b[0])
    requires LeadingSpaces(a) < |a|
    ensures SplitsApart(a, b)
    decreases |a|, 0
  {
    LeadingSpacesAppend(a, b);
    var w, rest := WordsStep(a, b);
    WordsAppend(rest, b);
    ConsAssoc(w, Words(rest), Words(b));
  }

  lemma ConsAssoc(w: string, x: seq<string>, y: seq<string>)
    ensures [w] + (x + y) == ([w] + x) + y
  {
  }

  lemma WordsAfterSpaces(a: string, b: string)
    requires LeadingSpaces(a) == |a|
    ensures Words(a) == [] && Words(a + b) == Words(b)
    ensures SplitsApart(a, b)
  {
    LeadingSpacesAppend(a, b);
    assert (a + b)[LeadingSpaces(a + b)..] == b[LeadingSpaces(b)..];
    assert a[LeadingSpaces(a)..] == [];
  }

  /** The first word of `a` and what follows it, also when `b` is appended to `a`. */
  lemma WordsStep(a: string, b: string) returns (w: string, rest: string)
    requires b == [] || IsSpace(b[0])
    requires LeadingSpaces(a) < |a| && LeadingSpaces(a + b) == LeadingSpaces(a)
    ensures |rest| < |a|
    ensures Words(a) == [w] + Words(rest) && Words(a + b) == [w] + Words(rest + b)
  {
    var t := a[LeadingSpaces(a)..];
    SliceAppend(a, b, LeadingSpaces(a));
    FirstSpaceAppend(t, b);
    var k := FirstSpace(t);
    assert k > 0 by { assert t[0] == a[LeadingSpaces(a)]; }
    SliceAppend(t, b, k);
    w, rest := t[..k], t[k..];
  }

  lemma SliceAppend(t: string, b: string, k: nat)
    requires k <= |t|
    ensures (t + b)[..k] == t[..k] && (t + b)[k..] == t[k..] + b
  {
  }

  /** `(" " + w).split()` is `[w]` for a single word `w`. */
  lemma SpacedWord(w: string)
    requires IsWord(w)
    ensures Words(" " + w) == [w]
  {
    var s := " " + w;
    assert s[1..] == w;
    assert LeadingSpaces(w) == 0 && LeadingSpaces(s) == 1;
    assert s[LeadingSpaces(s)..] == w;
    var k := FirstSpace(w);
    assert k == |w|;
    assert w[..k] == w && w[k..] == [];
    assert Words([]) == [];
  }
}
