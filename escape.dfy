/**
  The MDX escaper `escape_mdx` of main.py: every character of the class
  `[<>@\[\]\\`*_{}&#]` is replaced by a backslash followed by itself, and
  every other character is kept. `re.sub` with a one-character class visits
  the characters left to right, so the escaper is a per-character map.
*/
module Escape {
  import opened Wrappers

  /** The thirteen characters of the escape class, the backslash among them. */
  predicate IsSpecial(c: char) {
    || c == '<' || c == '>' || c == '@' || c == '[' || c == ']' || c == '\\'
    || c == '`' || c == '*' || c == '_' || c == '{' || c == '}' || c == '&' || c == '#'
  }

  /** The number of characters of `s` that belong to the escape class. */
  function CountSpecial(s: string): nat {
    if s == [] then 0 else (if IsSpecial(s[0]) then 1 else 0) + CountSpecial(s[1..])
  }

  /** What one character of the input becomes. */
  function EscapeChar(c: char): (r: string)
    ensures 1 <= |r| && r[|r| - 1] == c
    ensures |r| == 2 <==> IsSpecial(c)
    ensures |r| == 2 ==> r[0] == '\\'
    ensures !IsSpecial(c) ==> r == [c]
  {
    if IsSpecial(c) then ['\\', c] else [c]
  }

  /** escape_mdx: the output grows by exactly one backslash per special character. */
  function EscapeMdx(s: string): (r: string)
    ensures |r| == |s| + CountSpecial(s)
  {
    if s == [] then [] else EscapeChar(s[0]) + EscapeMdx(s[1..])
  }

  /**
    The decoder that undoes the escaping: a backslash followed by a special
    character stands for that character; a special character that is not
    preceded by a backslash, or a backslash that does not precede a special
    character, cannot occur in an escaped text and gives None.
  */
  function Unescape(t: string): (r: Option<string>)
    ensures r.Some? ==> |r.value| <= |t|
  {
    if t == [] then Some([])
    else if t[0] == '\\' then
      if |t| >= 2 && IsSpecial(t[1]) then Prepend(t[1], Unescape(t[2..])) else None
    else if IsSpecial(t[0]) then None
    else Prepend(t[0], Unescape(t[1..]))
  }

  function Prepend(c: char, o: Option<string>): Option<string> {
    match o
    case None => None
    case Some(s) => Some([c] + s)
  }

  /** Escaping distributes over concatenation. */
  lemma {:induction false} EscapeAppend(a: string, b: string)
    ensures EscapeMdx(a + b) == EscapeMdx(a) + EscapeMdx(b)
  {
    if a == [] {
      assert a + b == b;
    } else {
      assert (a + b)[0] == a[0];
      assert (a + b)[1..] == a[1..] + b;
      EscapeAppend(a[1..], b);
    }
  }

  /** The special-character count is additive as well. */
  lemma {:induction false} CountSpecialAppend(a: string, b: string)
    ensures CountSpecial(a + b) == CountSpecial(a) + CountSpecial(b)
  {
    if a == [] {
      assert a + b == b;
    } else {
      assert (a + b)[0] == a[0];
      assert (a + b)[1..] == a[1..] + b;
      CountSpecialAppend(a[1..], b);
    }
  }

  /**
    Position by position: the i-th input character lands at index i plus the
    number of special characters before it, preceded there by a backslash
    exactly when it is special.
  */
  lemma {:induction false} EscapeAt(s: string, i: nat)
    requires i < |s|
    ensures var j := i + CountSpecial(s[..i]);
      var r := EscapeMdx(s);
      if IsSpecial(s[i]) then j + 1 < |r| && r[j] == '\\' && r[j + 1] == s[i]
      else j < |r| && r[j] == s[i]
  {
    var e := EscapeChar(s[0]);
    assert EscapeMdx(s) == e + EscapeMdx(s[1..]);
    if i == 0 {
      assert s[..0] == [];
    } else {
      EscapeAt(s[1..], i - 1);
      assert s[..i] == [s[0]] + s[1..][..i - 1];
      CountSpecialAppend([s[0]], s[1..][..i - 1]);
      assert CountSpecial([s[0]]) == |e| - 1;
    }
  }

  /** Decoding an escaped text gives back the original. */
  lemma {:induction false} UnescapeEscape(s: string)
    ensures Unescape(EscapeMdx(s)) == Some(s)
  {
    if s != [] {
      var t := EscapeMdx(s);
      UnescapeEscape(s[1..]);
      if IsSpecial(s[0]) {
        assert t[2..] == EscapeMdx(s[1..]);
      } else {
        assert t[1..] == EscapeMdx(s[1..]);
      }
      assert [s[0]] + s[1..] == s;
    }
  }

  /** Only an escaped text decodes, and only to the text it escapes. */
  lemma {:induction false} EscapeUnescape(t: string, s: string)
    requires Unescape(t) == Some(s)
    ensures EscapeMdx(s) == t
  {
    if t != [] {
      if t[0] == '\\' {
        var rest := Unescape(t[2..]).value;
        EscapeUnescape(t[2..], rest);
        assert s == [t[1]] + rest;
        assert s[1..] == rest;
        assert t == [t[0], t[1]] + t[2..];
      } else {
        var rest := Unescape(t[1..]).value;
        EscapeUnescape(t[1..], rest);
        assert s == [t[0]] + rest;
        assert s[1..] == rest;
        assert t == [t[0]] + t[1..];
      }
    }
  }

  /** The escaping is uniquely decodable: Unescape is its exact inverse. */
  lemma EscapeDecodable(t: string, s: string)
    ensures Unescape(t) == Some(s) <==> t == EscapeMdx(s)
  {
    if Unescape(t) == Some(s) {
      EscapeUnescape(t, s);
    }
    if t == EscapeMdx(s) {
      UnescapeEscape(s);
    }
  }

  /** Hence two different texts never escape to the same output. */
  lemma EscapeInjective(a: string, b: string)
    requires EscapeMdx(a) == EscapeMdx(b)
    ensures a == b
  {
    UnescapeEscape(a);
    UnescapeEscape(b);
  }

  /** Every character of an escaped special character is special again. */
  lemma {:induction false} CountSpecialEscaped(s: string)
    ensures CountSpecial(EscapeMdx(s)) == 2 * CountSpecial(s)
  {
    if s != [] {
      var e := EscapeChar(s[0]);
      CountSpecialEscaped(s[1..]);
      CountSpecialAppend(e, EscapeMdx(s[1..]));
      if IsSpecial(s[0]) {
        assert e == [e[0]] + [e[1]];
        CountSpecialAppend([e[0]], [e[1]]);
      }
    }
  }

  /** Escaping leaves a text unchanged exactly when it has no special character. */
  lemma EscapeFixedIff(s: string)
    ensures EscapeMdx(s) == s <==> CountSpecial(s) == 0
  {
    if CountSpecial(s) == 0 {
      NoSpecialUnchanged(s);
    }
  }

  lemma {:induction false} NoSpecialUnchanged(s: string)
    requires CountSpecial(s) == 0
    ensures EscapeMdx(s) == s
  {
    if s != [] {
      NoSpecialUnchanged(s[1..]);
      assert [s[0]] + s[1..] == s;
    }
  }

  /**
    escape_mdx is not idempotent: escaping a second time changes the result
    of the first whenever the input holds any special character, because the
    backslashes added by the first pass are special themselves.
  */
  lemma EscapeTwiceIff(s: string)
    ensures EscapeMdx(EscapeMdx(s)) == EscapeMdx(s) <==> CountSpecial(s) == 0
  {
    CountSpecialEscaped(s);
    EscapeFixedIff(EscapeMdx(s));
  }

  /** Escaping adds no character other than backslashes. */
  lemma {:induction false} EscapeKeepsChar(s: string, c: char)
    requires c != '\\'
    ensures c in EscapeMdx(s) <==> c in s
  {
    if s != [] {
      EscapeKeepsChar(s[1..], c);
      assert s == [s[0]] + s[1..];
      assert c in EscapeMdx(s) <==> c in EscapeChar(s[0]) || c in EscapeMdx(s[1..]);
    }
  }
}
