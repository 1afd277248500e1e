/** The parts of Python's str semantics the scraper and the wrapper rely on:
    strip/rstrip, upper, `in`, split, str(int) and int(str). */
module PyStr {
  import opened Wrappers

  /** str.isspace() of one character: what strip() and rstrip() remove. */
  predicate IsSpace(c: char) {
    || ('\U{9}' <= c <= '\U{d}')
    || ('\U{1c}' <= c <= '\U{20}')
    || c == '\U{85}' || c == '\U{a0}' || c == '\U{1680}'
    || ('\U{2000}' <= c <= '\U{200a}')
    || c == '\U{2028}' || c == '\U{2029}' || c == '\U{202f}' || c == '\U{205f}' || c == '\U{3000}'
  }

  /** s.rstrip(): the longest prefix of s that does not end in whitespace. */
  function RStrip(s: string): (r: string)
    ensures |r| <= |s| && r == s[..|r|]
    ensures r == [] || !IsSpace(r[|r| - 1])
  {
    if s != [] && IsSpace(s[|s| - 1]) then RStrip(s[..|s| - 1]) else s
  }

  /** s.lstrip(): the longest suffix of s that does not start with whitespace. */
  function LStrip(s: string): (r: string)
    ensures |r| <= |s|
    ensures r == [] || !IsSpace(r[0])
  {
    if s != [] && IsSpace(s[0]) then LStrip(s[1..]) else s
  }

  /** s.strip() */
  function Strip(s: string): (r: string)
    ensures r == [] || (!IsSpace(r[0]) && !IsSpace(r[|r| - 1]))
  {
    LStripRemovesSpace(RStrip(s));
    LStrip(RStrip(s))
  }

  /** rstrip() removes only whitespace. */
  lemma {:induction false} RStripRemovesSpace(s: string)
    ensures forall i :: |RStrip(s)| <= i < |s| ==> IsSpace(s[i])
  {
    if s != [] && IsSpace(s[|s| - 1]) {
      RStripRemovesSpace(s[..|s| - 1]);
    }
  }

  /** lstrip() removes only leading whitespace. */
  lemma {:induction false} LStripRemovesSpace(s: string)
    ensures LStrip(s) == s[|s| - |LStrip(s)|..]
    ensures forall i :: 0 <= i < |s| - |LStrip(s)| ==> IsSpace(s[i])
  {
    if s != [] && IsSpace(s[0]) {
      LStripRemovesSpace(s[1..]);
    }
  }

  /** A string that neither starts nor ends with whitespace is its own strip(). */
  lemma StripUnchanged(s: string)
    requires s == [] || (!IsSpace(s[0]) && !IsSpace(s[|s| - 1]))
    ensures Strip(s) == s
  {
    assert RStrip(s) == s;
  }

  /** str.upper() of one character, for the ASCII letters. */
  function UpperChar(c: char): char {
    if 'a' <= c <= 'z' then (c as int - 32) as char else c
  }

  /** s.upper() */
  function Upper(s: string): (r: string)
    ensures |r| == |s|
  {
    if s == [] then [] else Upper(s[..|s| - 1]) + [UpperChar(s[|s| - 1])]
  }

  /** upper() maps every character on its own. */
  lemma {:induction false} UpperPointwise(s: string)
    ensures forall i :: 0 <= i < |s| ==> Upper(s)[i] == UpperChar(s[i])
  {
    if s != [] {
      UpperPointwise(s[..|s| - 1]);
    }
  }

  predicate OccursAt(s: string, sub: string, k: nat) {
    k + |sub| <= |s| && s[k..k + |sub|] == sub
  }

  /** The first index at or after k where sub occurs in s. */
  function FindFrom(s: string, sub: string, k: nat): Option<nat>
    decreases |s| - k
  {
    if k + |sub| > |s| then None
    else if s[k..k + |sub|] == sub then Some(k)
    else FindFrom(s, sub, k + 1)
  }

  /** FindFrom finds the first occurrence at or after k, and None means there is none. */
  lemma {:induction false} FindFromFirst(s: string, sub: string, k: nat)
    ensures FindFrom(s, sub, k).Some? ==>
      var j := FindFrom(s, sub, k).value;
      k <= j && OccursAt(s, sub, j) && forall m: nat :: k <= m < j ==> !OccursAt(s, sub, m)
    ensures FindFrom(s, sub, k).None? ==> forall m: nat :: k <= m ==> !OccursAt(s, sub, m)
    decreases |s| - k
  {
    if k + |sub| <= |s| && s[k..k + |sub|] != sub {
      FindFromFirst(s, sub, k + 1);
    }
  }

  /** s.find(sub), with None for -1. */
  function Find(s: string, sub: string): Option<nat> {
    FindFrom(s, sub, 0)
  }

  /** find() returns the first occurrence, and None when there is none. */
  lemma FindFirst(s: string, sub: string)
    ensures Find(s, sub).Some? ==>
      OccursAt(s, sub, Find(s, sub).value) && forall m: nat :: m < Find(s, sub).value ==> !OccursAt(s, sub, m)
    ensures Find(s, sub).None? ==> forall m: nat :: !OccursAt(s, sub, m)
  {
    FindFromFirst(s, sub, 0);
  }

  /** `sub in s` */
  predicate Contains(s: string, sub: string) {
    Find(s, sub).Some?
  }

  /** `sub in s` holds whenever sub occurs at some index of s. */
  lemma ContainsOccurs(s: string, sub: string, k: nat)
    ensures OccursAt(s, sub, k) ==> Contains(s, sub)
  {
    FindFirst(s, sub);
  }

  /** sep.join(parts) */
  function Join(parts: seq<string>, sep: string): string {
    if parts == [] then ""
    else if |parts| == 1 then parts[0]
    else parts[0] + sep + Join(parts[1..], sep)
  }

  /** s.split(sep) for a non-empty separator: the pieces between the
      occurrences of sep, found from the left. */
  function Split(s: string, sep: string): (r: seq<string>)
    requires sep != []
    ensures |r| >= 1
    decreases |s|
  {
    match Find(s, sep)
    case None => [s]
    case Some(i) =>
      FindFromFirst(s, sep, 0);
      [s[..i]] + Split(s[i + |sep|..], sep)
  }

  /** split() loses nothing: joining the pieces with sep gives s back. */
  lemma {:induction false} SplitJoin(s: string, sep: string)
    requires sep != []
    ensures Join(Split(s, sep), sep) == s
    decreases |s|
  {
    match Find(s, sep)
    case None =>
    case Some(i) =>
      FindFromFirst(s, sep, 0);
      var rest := s[i + |sep|..];
      var parts := Split(s, sep);
      assert parts == [s[..i]] + Split(rest, sep);
      SplitJoin(rest, sep);
      JoinCons(parts, sep);
      assert parts[1..] == Split(rest, sep);
      OccursAround(s, sep, i);
  }

  /** An occurrence inside a prefix of s is an occurrence in s. */
  lemma OccursInPrefix(s: string, sub: string, n: nat, k: nat)
    requires n <= |s| && OccursAt(s[..n], sub, k)
    ensures OccursAt(s, sub, k)
  {
    assert s[..n][k..k + |sub|] == s[k..k + |sub|];
  }

  /** A string is what precedes an occurrence, the occurrence, and what follows. */
  lemma OccursAround(s: string, sub: string, k: nat)
    requires OccursAt(s, sub, k)
    ensures s == s[..k] + sub + s[k + |sub|..]
  {
    assert s == s[..k] + s[k..k + |sub|] + s[k + |sub|..];
  }

  /** Joining two or more pieces puts sep after the first. */
  lemma JoinCons(parts: seq<string>, sep: string)
    requires |parts| >= 2
    ensures Join(parts, sep) == parts[0] + sep + Join(parts[1..], sep)
  {
  }

  /** No piece split() returns contains the separator. */
  lemma {:induction false} SplitPiecesFree(s: string, sep: string)
    requires sep != []
    ensures forall i :: 0 <= i < |Split(s, sep)| ==> !Contains(Split(s, sep)[i], sep)
    decreases |s|
  {
    FindFirst(s, sep);
    match Find(s, sep)
    case None =>
    case Some(i) =>
      var head := s[..i];
      FindFirst(head, sep);
      if Contains(head, sep) {
        var j := Find(head, sep).value;
        assert OccursAt(head, sep, j);
        assert j + |sep| <= i;
        OccursInPrefix(s, sep, i, j);
        assert false;
      }
      SplitPiecesFree(s[i + |sep|..], sep);
  }

  /** The first piece split() returns is the text before the first
      separator, or all of s when there is none; the other pieces are those of
      the text after that separator. */
  lemma SplitHead(s: string, sep: string)
    requires sep != []
    ensures Contains(s, sep) <==> |Split(s, sep)| >= 2
    ensures !Contains(s, sep) ==> Split(s, sep) == [s]
    ensures Contains(s, sep) ==>
      var i := Find(s, sep).value;
      && OccursAt(s, sep, i)
      && Split(s, sep)[0] == s[..i]
      && !Contains(s[..i], sep)
      && Split(s, sep)[1..] == Split(s[i + |sep|..], sep)
  {
    FindFirst(s, sep);
    SplitPiecesFree(s, sep);
  }

  /** A one-character separator occurs in s exactly where s has that character. */
  lemma ContainsChar(s: string, c: char)
    ensures Contains(s, [c]) <==> c in s
  {
    FindFirst(s, [c]);
    if Contains(s, [c]) {
      var j := Find(s, [c]).value;
      assert s[j..j + 1] == [c];
      assert s[j] == s[j..j + 1][0];
    }
    if c in s {
      var i :| 0 <= i < |s| && s[i] == c;
      assert s[i..i + 1] == [c];
      ContainsOccurs(s, [c], i);
    }
  }

  /** With a one-character separator, a piece x without it followed by the
      separator splits off as the first piece. */
  lemma SplitCons(x: string, sep: string, y: string)
    requires |sep| == 1 && !Contains(x, sep)
    ensures Split(x + sep + y, sep) == [x] + Split(y, sep)
  {
    var s := x + sep + y;
    FindFirst(s, sep);
    FindFirst(x, sep);
    assert s[|x|..|x| + 1] == sep;
    assert OccursAt(s, sep, |x|);
    var i := Find(s, sep).value;
    if i < |x| {
      assert s[i..i + 1] == x[i..i + 1];
      ContainsOccurs(x, sep, i);
    }
    assert i == |x|;
    assert s[..i] == x && s[i + |sep|..] == y;
  }

  /** The lines, each followed by sep: what a writer that ends every line
      with sep produces. */
  function Terminated(lines: seq<string>, sep: string): string {
    if lines == [] then "" else lines[0] + sep + Terminated(lines[1..], sep)
  }

  /** Writing two runs of lines one after the other writes all of them. */
  lemma {:induction false} TerminatedAppend(a: seq<string>, b: seq<string>, sep: string)
    ensures Terminated(a + b, sep) == Terminated(a, sep) + Terminated(b, sep)
  {
    if a != [] {
      assert (a + b)[0] == a[0] && (a + b)[1..] == a[1..] + b;
      TerminatedAppend(a[1..], b, sep);
    } else {
      assert a + b == b;
    }
  }

  /** Lines free of a one-character separator, each ended by it, split back
      into those lines. */
  lemma {:induction false} SplitTerminated(lines: seq<string>, sep: string, rest: string)
    requires |sep| == 1
    requires forall k :: 0 <= k < |lines| ==> !Contains(lines[k], sep)
    ensures Split(Terminated(lines, sep) + rest, sep) == lines + Split(rest, sep)
  {
    if lines != [] {
      assert forall k :: 0 <= k < |lines[1..]| ==> lines[1..][k] == lines[k + 1];
      SplitTerminated(lines[1..], sep, rest);
      TerminatedCons(lines, sep, rest);
      SplitConsInto(lines[0], sep, Terminated(lines[1..], sep) + rest, Terminated(lines, sep) + rest, lines[1..], Split(rest, sep));
      assert [lines[0]] + lines[1..] == lines;
    } else {
      assert Terminated(lines, sep) + rest == rest;
    }
  }

  /** Unfolds the first line of a terminated run. */
  lemma TerminatedCons(lines: seq<string>, sep: string, rest: string)
    requires lines != []
    ensures Terminated(lines, sep) + rest == lines[0] + sep + (Terminated(lines[1..], sep) + rest)
  {
  }

  /** SplitCons, stated for a string already known to have that shape. */
  lemma SplitConsInto(x: string, sep: string, tail: string, s: string, l: seq<string>, r: seq<string>)
    requires |sep| == 1 && !Contains(x, sep) && s == x + sep + tail
    requires Split(tail, sep) == l + r
    ensures Split(s, sep) == [x] + l + r
  {
    SplitCons(x, sep, tail);
  }

  predicate IsDigit(c: char) {
    '0' <= c <= '9'
  }

  predicate AllDigits(s: string) {
    forall i :: 0 <= i < |s| ==> IsDigit(s[i])
  }

  function DigitChar(d: nat): (c: char)
    requires d < 10
    ensures IsDigit(c) && c as int - '0' as int == d
  {
    ('0' as int + d) as char
  }

  /** The value of a string of decimal digits. */
  function DigitsValue(s: string): nat
    requires AllDigits(s)
  {
    if s == [] then 0 else 10 * DigitsValue(s[..|s| - 1]) + (s[|s| - 1] as int - '0' as int)
  }

  /** str(n) for n >= 0: decimal digits without leading zeros. */
  function NatToString(n: nat): (r: string)
    ensures r != [] && AllDigits(r)
    ensures |r| > 1 ==> r[0] != '0'
  {
    if n < 10 then [DigitChar(n)] else NatToString(n / 10) + [DigitChar(n % 10)]
  }

  /** str(n) */
  function IntToString(n: int): (r: string)
    ensures r != [] && !IsSpace(r[0]) && !IsSpace(r[|r| - 1])
    ensures r[0] == '-' <==> n < 0
  {
    if n < 0 then "-" + NatToString(-n) else NatToString(n)
  }

  /** int(s) for a str s, with None where Python raises ValueError: surrounding
      whitespace, an optional sign, then at least one decimal digit. */
  function ParseInt(s: string): (r: Option<int>)
  {
    var t := Strip(s);
    if t == [] then None
    else if t[0] == '-' || t[0] == '+' then
      var digits := t[1..];
      if digits != [] && AllDigits(digits) then
        var magnitude: int := DigitsValue(digits);
        Some(if t[0] == '-' then -magnitude else magnitude)
      else None
    else if AllDigits(t) then Some(DigitsValue(t))
    else None
  }

  lemma {:induction false} DigitsValueOfNatToString(n: nat)
    ensures DigitsValue(NatToString(n)) == n
  {
    if n >= 10 {
      DigitsValueOfNatToString(n / 10);
      var s := NatToString(n);
      assert s[..|s| - 1] == NatToString(n / 10);
    }
  }

  /** int(str(n)) == n */
  lemma ParseIntOfIntToString(n: int)
    ensures ParseInt(IntToString(n)) == Some(n)
  {
    var s := IntToString(n);
    StripUnchanged(s);
    if n < 0 {
      var digits := NatToString(-n);
      assert s == "-" + digits && s[1..] == digits;
      DigitsValueOfNatToString(-n);
      assert ParseInt(s) == Some(-(DigitsValue(digits) as int));
    } else {
      assert s == NatToString(n) && IsDigit(s[0]);
      DigitsValueOfNatToString(n);
      assert ParseInt(s) == Some(DigitsValue(s));
    }
  }
}
