// Character-level helpers shared by the parameter registry and the
// behaviours: Python's `str.upper()` on ASCII text, `'\t' * n`, and the
// `str()` rendering of a non-negative integer, and `split('.')` with its
// inverse `'.'.join`.

module Text {

  function UpperChar(c: char): (u: char)
    ensures 'a' <= c <= 'z' ==> u as int == c as int - 32
    ensures !('a' <= c <= 'z') ==> u == c
  {
    if 'a' <= c <= 'z' then (c as int - 32) as char else c
  }

  /** `s.upper()` restricted to ASCII letters (no Unicode case mapping). */
  function Upper(s: string): (u: string)
    ensures |u| == |s|
    ensures forall k :: 0 <= k < |s| ==> u[k] == UpperChar(s[k])
  {
    if s == [] then [] else [UpperChar(s[0])] + Upper(s[1..])
  }

  predicate IsUpper(s: string) {
    forall k :: 0 <= k < |s| ==> !('a' <= s[k] <= 'z')
  }

  /** Upper-casing yields upper-case text and is idempotent. */
  lemma UpperIdempotent(s: string)
    ensures IsUpper(Upper(s))
    ensures Upper(Upper(s)) == Upper(s)
  {
    assert forall k :: 0 <= k < |s| ==> Upper(Upper(s))[k] == Upper(s)[k];
  }

  /** Text already in upper case is left unchanged. */
  lemma UpperOfUpper(s: string)
    requires IsUpper(s)
    ensures Upper(s) == s
  {
    assert forall k :: 0 <= k < |s| ==> Upper(s)[k] == s[k];
  }

  /** `'\t' * n` */
  function Tabs(n: nat): (t: string)
    ensures |t| == n
    ensures forall k :: 0 <= k < n ==> t[k] == '\t'
  {
    seq(n, _ => '\t')
  }

  function DigitChar(d: nat): (c: char)
    requires d < 10
    ensures '0' <= c <= '9'
  {
    ('0' as int + d) as char
  }

  /** `str(n)` for a non-negative integer: decimal digits, no leading zero. */
  function NatToString(n: nat): (s: string)
    ensures |s| >= 1
    ensures forall k :: 0 <= k < |s| ==> '0' <= s[k] <= '9'
    ensures n >= 10 ==> s[0] != '0'
    decreases n
  {
    if n < 10 then [DigitChar(n)] else NatToString(n / 10) + [DigitChar(n % 10)]
  }

  /** The number of newline characters in a text. */
  function Newlines(s: string): nat {
    multiset(s)['\n']
  }

  predicate NoNewline(s: string) {
    '\n' !in s
  }

  /** Line breaks add up over a concatenation. */
  lemma NewlinesAppend(a: string, b: string)
    ensures Newlines(a + b) == Newlines(a) + Newlines(b)
  {
    assert multiset(a + b) == multiset(a) + multiset(b);
  }

  lemma NoNewlineNone(s: string)
    requires NoNewline(s)
    ensures Newlines(s) == 0
  {
    assert '\n' !in multiset(s);
  }

  lemma NoNewlineAppend(a: string, b: string)
    requires NoNewline(a) && NoNewline(b)
    ensures NoNewline(a + b)
  {
  }

  lemma TabsNoNewline(n: nat)
    ensures NoNewline(Tabs(n))
  {
  }

  /** `s.split('.')`: the pieces between the dots, at least one. */
  function SplitDots(s: string): (parts: seq<string>)
    ensures |parts| >= 1
    ensures forall k :: 0 <= k < |parts| ==> '.' !in parts[k]
    ensures '.' !in s ==> parts == [s]
  {
    if s == [] then [""]
    else
      var rest := SplitDots(s[1..]);
      assert s == [s[0]] + s[1..];
      if s[0] == '.' then [""] + rest else [[s[0]] + rest[0]] + rest[1..]
  }

  /** `'.'.join(parts)` */
  function JoinDots(parts: seq<string>): string {
    if parts == [] then "" else if |parts| == 1 then parts[0] else parts[0] + "." + JoinDots(parts[1..])
  }

  /** Joining the pieces of a split gives back the text. */
  lemma {:induction false} JoinSplit(s: string)
    ensures JoinDots(SplitDots(s)) == s
  {
    if s != [] {
      JoinSplit(s[1..]);
      JoinSplitStep(s[0], s[1..]);
      assert [s[0]] + s[1..] == s;
    }
  }

  /** One more character in front keeps the split and the join inverse. */
  lemma JoinSplitStep(c: char, t: string)
    requires JoinDots(SplitDots(t)) == t
    ensures JoinDots(SplitDots([c] + t)) == [c] + t
  {
    var s := [c] + t;
    assert s[0] == c && s[1..] == t;
    var rest := SplitDots(t);
    if c == '.' {
      assert SplitDots(s) == [""] + rest;
      JoinCons("", rest);
    } else if |rest| == 1 {
      assert SplitDots(s) == [[c] + rest[0]];
    } else {
      assert SplitDots(s) == [[c] + rest[0]] + rest[1..];
      JoinMerge(c, rest);
    }
  }

  /** Gluing a character to the first of several pieces glues it to their join. */
  lemma JoinMerge(c: char, rest: seq<string>)
    requires |rest| > 1
    ensures JoinDots([[c] + rest[0]] + rest[1..]) == [c] + JoinDots(rest)
  {
    var head, tail := [c] + rest[0], rest[1..];
    JoinCons(head, tail);
    assert rest == [rest[0]] + tail;
    JoinCons(rest[0], tail);
    Regroup([c], rest[0], ".", JoinDots(tail));
  }

  lemma Regroup(a: string, b: string, d: string, e: string)
    ensures (a + b) + d + e == a + (b + d + e)
  {
  }

  /** A piece in front of other pieces is joined to them by a dot. */
  lemma JoinCons(a: string, rest: seq<string>)
    requires rest != []
    ensures JoinDots([a] + rest) == a + "." + JoinDots(rest)
  {
    assert ([a] + rest)[1..] == rest;
  }
}
