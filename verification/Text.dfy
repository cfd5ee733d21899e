/** Blanks, cases and hexadecimal digits of texts. */
module Text {

  predicate IsSpace(c: char) {
    || '\t' <= c <= '\r' || '\U{1c}' <= c <= ' ' || c == '\U{85}' || c == '\U{a0}' || c == '\U{1680}'
    || '\U{2000}' <= c <= '\U{200a}' || c == '\U{2028}' || c == '\U{2029}' || c == '\U{202f}'
    || c == '\U{205f}' || c == '\U{3000}'
  }

  predicate IsHex(c: char) { '0' <= c <= '9' || 'a' <= c <= 'f' }

  predicate AllHex(s: string) { forall i :: 0 <= i < |s| ==> IsHex(s[i]) }

  predicate AllSpaces(s: string) { forall i :: 0 <= i < |s| ==> IsSpace(s[i]) }

  function StripLeft(s: string): string {
    if s != "" && IsSpace(s[0]) then StripLeft(s[1..]) else s
  }

  function StripRight(s: string): string {
    if s != "" && IsSpace(s[|s| - 1]) then StripRight(s[..|s| - 1]) else s
  }

  function Strip(s: string): string { StripRight(StripLeft(s)) }

  /** ASCII capitals in lower case. No other character has a hexadecimal digit for lower case. */
  function Lower(s: string): string {
    seq(|s|, i requires 0 <= i < |s| => if 'A' <= s[i] <= 'Z' then (s[i] as int + 32) as char else s[i])
  }

  lemma LowerOfHex(s: string)
    requires AllHex(s)
    ensures Lower(s) == s
  {
  }

  lemma {:induction false} StripLeftPast(a: string, s: string)
    requires AllSpaces(a)
    ensures StripLeft(a + s) == StripLeft(s)
  {
    if a == "" {
      assert a + s == s;
    } else {
      assert (a + s)[1..] == a[1..] + s;
      StripLeftPast(a[1..], s);
    }
  }

  lemma {:induction false} StripRightPast(s: string, b: string)
    requires AllSpaces(b)
    ensures StripRight(s + b) == StripRight(s)
  {
    if b == "" {
      assert s + b == s;
    } else {
      assert (s + b)[..|s + b| - 1] == s + b[..|b| - 1];
      StripRightPast(s, b[..|b| - 1]);
    }
  }

  lemma {:induction false} StripLeftShape(s: string) returns (a: string)
    ensures AllSpaces(a) && s == a + StripLeft(s)
    ensures StripLeft(s) != "" ==> !IsSpace(StripLeft(s)[0])
  {
    a := "";
    if s != "" && IsSpace(s[0]) {
      a := StripLeftShape(s[1..]);
      a := [s[0]] + a;
    }
  }

  lemma {:induction false} StripRightShape(s: string) returns (b: string)
    ensures AllSpaces(b) && s == StripRight(s) + b
    ensures StripRight(s) != "" ==> !IsSpace(StripRight(s)[|StripRight(s)| - 1])
  {
    b := "";
    if s != "" && IsSpace(s[|s| - 1]) {
      b := StripRightShape(s[..|s| - 1]);
      b := b + [s[|s| - 1]];
    }
  }

  /** Stripping removes spaces at both ends and leaves none there. */
  lemma StripShape(s: string) returns (a: string, b: string)
    ensures AllSpaces(a) && AllSpaces(b) && s == a + Strip(s) + b
    ensures Strip(s) != "" ==> !IsSpace(Strip(s)[0]) && !IsSpace(Strip(s)[|Strip(s)| - 1])
  {
    a := StripLeftShape(s);
    b := StripRightShape(StripLeft(s));
    assert a + StripLeft(s) == a + (Strip(s) + b) == a + Strip(s) + b;
  }

  lemma StripOfStripped(s: string)
    requires s != "" ==> !IsSpace(s[0]) && !IsSpace(s[|s| - 1])
    ensures Strip(s) == s
  {
  }

  lemma {:induction false} StripPast(a: string, s: string, b: string)
    requires AllSpaces(a) && AllSpaces(b)
    ensures Strip(a + s + b) == Strip(s)
  {
    var left := StripLeftShape(s);
    hide StripLeft, StripRight;
    var rest := StripLeft(s);
    assert a + s + b == (a + left) + (rest + b);
    StripLeftPast(a + left, rest + b);
    if rest == "" {
      assert rest + b == b + "" && StripLeft(b + "") == "" by { StripLeftPast(b, ""); NothingToStrip(); }
    } else {
      assert (rest + b)[0] == rest[0];
      StripLeftStops(rest + b);
      StripRightPast(rest, b);
    }
  }

  lemma NothingToStrip()
    ensures StripLeft("") == "" == StripRight("")
  {
  }

  lemma StripLeftStops(s: string)
    requires s != "" ==> !IsSpace(s[0])
    ensures StripLeft(s) == s
  {
  }
}
