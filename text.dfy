/** The three string operations the prompt list relies on, modelled after
    JavaScript's String.prototype.trim, String.prototype.toLowerCase and
    String.prototype.includes. */
module Text {

  /** The ECMAScript WhiteSpace and LineTerminator code points, which are
      exactly the characters `trim` removes at both ends of a string. */
  predicate IsTrimmable(c: char) {
    || c == '\t' || c == '\n' || c == '\U{B}' || c == '\U{C}' || c == '\r' || c == ' '
    || c == '\U{A0}' || c == '\U{1680}' || ('\U{2000}' <= c <= '\U{200A}')
    || c == '\U{2028}' || c == '\U{2029}' || c == '\U{202F}' || c == '\U{205F}'
    || c == '\U{3000}' || c == '\U{FEFF}'
  }

  /** True when every character of `s` is one that `trim` removes. */
  predicate IsBlank(s: string) {
    forall i :: 0 <= i < |s| ==> IsTrimmable(s[i])
  }

  /** `s` with its leading trimmable characters removed. */
  function TrimStart(s: string): (r: string)
    ensures |r| <= |s| && r == s[|s| - |r|..]
    ensures IsBlank(s[..|s| - |r|])
    ensures r == [] || !IsTrimmable(r[0])
    decreases |s|
  {
    if s != [] && IsTrimmable(s[0]) then
      var r := TrimStart(s[1..]);
      assert s[..|s| - |r|] == [s[0]] + s[1..][..|s| - 1 - |r|];
      r
    else s
  }

  /** `s` with its trailing trimmable characters removed. */
  function TrimEnd(s: string): (r: string)
    ensures |r| <= |s| && r == s[..|r|]
    ensures IsBlank(s[|r|..])
    ensures r == [] || !IsTrimmable(r[|r| - 1])
    decreases |s|
  {
    if s != [] && IsTrimmable(s[|s| - 1]) then
      var r := TrimEnd(s[..|s| - 1]);
      assert s[|r|..] == s[..|s| - 1][|r|..] + [s[|s| - 1]];
      r
    else s
  }

  /** String.prototype.trim: `s` without its leading and trailing white space. */
  function Trim(s: string): (r: string)
    ensures |r| <= |s|
    ensures r == [] || (!IsTrimmable(r[0]) && !IsTrimmable(r[|r| - 1]))
  {
    TrimEnd(TrimStart(s))
  }

  /** `r` is the slice of `s` that starts at `a`, and what lies before and
      after it in `s` is blank. */
  predicate BetweenBlanks(s: string, r: string, a: nat) {
    a + |r| <= |s| && s[a..a + |r|] == r && IsBlank(s[..a]) && IsBlank(s[a + |r|..])
  }

  /** The trimmed string is the slice of `s` between two blank margins. */
  lemma TrimIsSlice(s: string)
    ensures exists a: nat :: BetweenBlanks(s, Trim(s), a)
  {
    var t := TrimStart(s);
    var r := TrimEnd(t);
    var a := |s| - |t|;
    assert Trim(s) == r;
    assert IsBlank(s[..a]);
    assert s[a..a + |r|] == r by {
      assert t == s[a..];
      assert r == t[..|r|];
    }
    assert IsBlank(s[a + |r|..]) by {
      assert s[a + |r|..] == t[|r|..];
      assert IsBlank(t[|r|..]);
    }
    assert BetweenBlanks(s, r, a);
  }

  /** A string with no trimmable character at either end is left as it is. */
  lemma TrimOfTrimmed(s: string)
    requires s == [] || (!IsTrimmable(s[0]) && !IsTrimmable(s[|s| - 1]))
    ensures Trim(s) == s
  {
  }

  /** Trimming twice gives what trimming once gives. */
  lemma TrimIdempotent(s: string)
    ensures Trim(Trim(s)) == Trim(s)
  {
    TrimOfTrimmed(Trim(s));
  }

  /** The trimmed string is empty exactly when the string is blank: this is
      what a "has visible text" test on a trimmed string decides. */
  lemma {:induction false} TrimEmptyIffBlank(s: string)
    ensures Trim(s) == [] <==> IsBlank(s)
  {
    var t := TrimStart(s);
    assert t[0..] == t;
    if t != [] {
      assert s[|s| - |t|] == t[0];
    } else {
      assert s[..|s|] == s;
    }
  }

  /** The lowercase form of one character: ASCII and Latin-1 capital letters
      map to their small letters, every other character to itself. */
  function LowerChar(c: char): (r: char)
    ensures IsUpper(c) ==> r as int == c as int + 32
    ensures ('A' <= c <= 'Z') ==> 'a' <= r <= 'z'
    ensures !IsUpper(c) ==> r == c
    ensures !IsUpper(r)
  {
    if IsUpper(c) then (c as int + 32) as char else c
  }

  /** The capital letters LowerChar changes: A to Z, and the Latin-1 capitals
      from U+00C0 to U+00DE except the multiplication sign U+00D7. */
  predicate IsUpper(c: char) {
    ('A' <= c <= 'Z') || ('\U{C0}' <= c <= '\U{DE}' && c != '\U{D7}')
  }

  /** String.prototype.toLowerCase, restricted to the letters of IsUpper. */
  function Lower(s: string): (r: string)
    ensures |r| == |s|
    ensures forall i :: 0 <= i < |s| ==>
      && (!IsUpper(s[i]) ==> r[i] == s[i])
      && (IsUpper(s[i]) ==> r[i] as int == s[i] as int + 32)
    ensures forall i :: 0 <= i < |s| ==> !IsUpper(r[i])
  {
    seq(|s|, i requires 0 <= i < |s| => LowerChar(s[i]))
  }

  /** Lowercasing twice gives what lowercasing once gives. */
  lemma LowerIdempotent(s: string)
    ensures Lower(Lower(s)) == Lower(s)
  {
  }

  /** `s` begins with `prefix`. */
  predicate StartsWith(s: string, prefix: string) {
    |prefix| <= |s| && s[..|prefix|] == prefix
  }

  /** `sub` occurs in `s` starting at index `i`. */
  predicate OccursAt(s: string, sub: string, i: nat) {
    i + |sub| <= |s| && s[i..i + |sub|] == sub
  }

  /** String.prototype.includes: `sub` occurs somewhere in `s`. Every string
      includes the empty string, and none includes anything longer than
      itself. */
  predicate Includes(s: string, sub: string)
    ensures sub == [] ==> Includes(s, sub)
    ensures Includes(s, sub) ==> |sub| <= |s|
    decreases |s|
  {
    StartsWith(s, sub) || (s != [] && Includes(s[1..], sub))
  }

  /** Includes holds exactly when `sub` occurs at some index of `s`. */
  lemma IncludesIffOccurs(s: string, sub: string)
    ensures Includes(s, sub) <==> exists i: nat :: OccursAt(s, sub, i)
  {
    if Includes(s, sub) {
      IncludesThenOccurs(s, sub);
    }
    if exists i: nat :: OccursAt(s, sub, i) {
      var i: nat :| OccursAt(s, sub, i);
      OccursThenIncludes(s, sub, i);
    }
  }

  lemma {:induction false} IncludesThenOccurs(s: string, sub: string)
    requires Includes(s, sub)
    ensures exists i: nat :: OccursAt(s, sub, i)
    decreases |s|
  {
    if StartsWith(s, sub) {
      assert OccursAt(s, sub, 0);
    } else {
      IncludesThenOccurs(s[1..], sub);
      var i: nat :| OccursAt(s[1..], sub, i);
      assert s[i + 1..i + 1 + |sub|] == s[1..][i..i + |sub|];
      assert OccursAt(s, sub, i + 1);
    }
  }

  lemma {:induction false} OccursThenIncludes(s: string, sub: string, i: nat)
    requires OccursAt(s, sub, i)
    ensures Includes(s, sub)
    decreases i
  {
    if i == 0 {
      assert StartsWith(s, sub);
    } else {
      assert s[1..][i - 1..i - 1 + |sub|] == s[i..i + |sub|];
      OccursThenIncludes(s[1..], sub, i - 1);
    }
  }
}
