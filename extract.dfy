/**
  The metadata search of `extract_script_info` in main.py. The file contents
  are a parameter (the text after it has been read and decoded); for each of
  the four fields the pattern `@<field>\s+(.+)` is searched for, first match
  only, and a found capture is stripped and escaped. A field whose pattern
  does not match keeps the literal default "N/A".
*/
module Extract {
  import opened Wrappers
  import opened Escape

  /** The default each field keeps when its pattern does not match. */
  const NA: string := "N/A"

  /** The keys of the info dictionary, in the order of the patterns dictionary. */
  const Fields: seq<string> := ["name", "description", "author", "downloadURL"]

  /** The same four keys as a set. */
  const FieldKeys: set<string> := {"name", "description", "author", "downloadURL"}

  /** The dictionary extract_script_info returns. */
  type Info = map<string, string>

  /**
    Python's whitespace (str.isspace), which is both what `\s` matches in a
    str pattern and what str.strip() removes.
  */
  predicate IsSpace(c: char) {
    var n := c as int;
    || 0x09 <= n <= 0x0D || 0x1C <= n <= 0x20 || n == 0x85 || n == 0xA0 || n == 0x1680
    || 0x2000 <= n <= 0x200A || n == 0x2028 || n == 0x2029 || n == 0x202F || n == 0x205F
    || n == 0x3000
  }

  // ---------------------------------------------------------------- strip

  /** str.lstrip() */
  function TrimStart(s: string): string {
    if s != [] && IsSpace(s[0]) then TrimStart(s[1..]) else s
  }

  /** str.rstrip() */
  function TrimEnd(s: string): string {
    if s != [] && IsSpace(s[|s| - 1]) then TrimEnd(s[..|s| - 1]) else s
  }

  /** lstrip drops the longest all-whitespace prefix and nothing else. */
  lemma {:induction false} TrimStartSpec(s: string)
    ensures var r := TrimStart(s);
      && |r| <= |s| && r == s[|s| - |r|..]
      && (forall k :: 0 <= k < |s| - |r| ==> IsSpace(s[k]))
      && (r != [] ==> !IsSpace(r[0]))
  {
    if s != [] && IsSpace(s[0]) {
      var t := s[1..];
      TrimStartSpec(t);
      assert TrimStart(s) == TrimStart(t);
      forall k | 0 <= k < |s| - |TrimStart(s)| ensures IsSpace(s[k]) {
        if k > 0 { assert s[k] == t[k - 1]; }
      }
    } else {
      assert TrimStart(s) == s;
    }
  }

  /** rstrip drops the longest all-whitespace suffix and nothing else. */
  lemma {:induction false} TrimEndSpec(s: string)
    ensures var r := TrimEnd(s);
      && |r| <= |s| && r == s[..|r|]
      && (forall k :: |r| <= k < |s| ==> IsSpace(s[k]))
      && (r != [] ==> !IsSpace(r[|r| - 1]))
  {
    if s != [] && IsSpace(s[|s| - 1]) {
      var t := s[..|s| - 1];
      TrimEndSpec(t);
      assert TrimEnd(s) == TrimEnd(t);
      forall k | |TrimEnd(s)| <= k < |s| ensures IsSpace(s[k]) {
        if k < |t| { assert s[k] == t[k]; }
      }
    } else {
      assert TrimEnd(s) == s;
    }
  }

  /** str.strip(): the result is no longer than s and neither starts nor ends with whitespace. */
  function Strip(s: string): (r: string)
    ensures |r| <= |s|
    ensures r != [] ==> !IsSpace(r[0]) && !IsSpace(r[|r| - 1])
  {
    var l := TrimStart(s);
    TrimStartSpec(s);
    TrimEndSpec(l);
    assert TrimEnd(l) != [] ==> TrimEnd(l)[0] == l[0];
    TrimEnd(l)
  }

  /**
    Strip keeps one slice of `s`: only whitespace precedes and follows it,
    and it neither starts nor ends with whitespace.
  */
  lemma StripSpec(s: string)
    ensures var a := |s| - |TrimStart(s)|;
      var r := Strip(s);
      && 0 <= a && a + |r| <= |s| && r == s[a..a + |r|]
      && (forall k :: 0 <= k < a ==> IsSpace(s[k]))
      && (forall k :: a + |r| <= k < |s| ==> IsSpace(s[k]))
      && (r != [] ==> !IsSpace(r[0]) && !IsSpace(r[|r| - 1]))
  {
    var l := TrimStart(s);
    TrimStartSpec(s);
    TrimEndSpec(l);
  }

  /** That slice is the only one with those properties. */
  lemma StripIsTrim(s: string, i: nat, j: nat)
    requires i <= j <= |s|
    requires forall k :: 0 <= k < i ==> IsSpace(s[k])
    requires forall k :: j <= k < |s| ==> IsSpace(s[k])
    requires i < j ==> !IsSpace(s[i]) && !IsSpace(s[j - 1])
    ensures Strip(s) == s[i..j]
  {
    var l := TrimStart(s);
    TrimStartSpec(s);
    TrimEndSpec(l);
    var a := |s| - |l|;
    var r := TrimEnd(l);
    if i < j {
      assert a <= i;
      assert l[i - a] == s[i];
      assert l[0] == s[a] && !IsSpace(s[a]);
      assert a == i;
      assert l[j - 1 - a] == s[j - 1];
      assert a + |r| >= j;
      assert r[|r| - 1] == s[a + |r| - 1];
      assert a + |r| == j;
    } else {
      assert l == [];
    }
  }

  /** Stripping twice is stripping once. */
  lemma StripIdempotent(s: string)
    ensures Strip(Strip(s)) == Strip(s)
  {
    var r := Strip(s);
    StripSpec(s);
    StripIsTrim(r, 0, |r|);
  }

  // ------------------------------------------------- the pattern @key\s+(.+)

  /** The length of the whitespace run that starts at index i. */
  function WsRun(s: string, i: nat): (n: nat)
    requires i <= |s|
    ensures i + n <= |s|
    decreases |s| - i
  {
    if i < |s| && IsSpace(s[i]) then 1 + WsRun(s, i + 1) else 0
  }

  /** The greedy `\s+` takes the longest run of whitespace from i, line breaks included. */
  lemma {:induction false} WsRunSpec(s: string, i: nat)
    requires i <= |s|
    ensures var n := WsRun(s, i);
      && (forall k :: i <= k < i + n ==> IsSpace(s[k]))
      && (i + n == |s| || !IsSpace(s[i + n]))
    decreases |s| - i
  {
    if i < |s| && IsSpace(s[i]) {
      WsRunSpec(s, i + 1);
    }
  }

  /** The index of the first line break at or after i, or |s|: where `.+` stops. */
  function LineEnd(s: string, i: nat): (e: nat)
    requires i <= |s|
    ensures i <= e <= |s|
    decreases |s| - i
  {
    if i < |s| && s[i] != '\n' then LineEnd(s, i + 1) else i
  }

  /** The greedy `.+` stops at the first line break or at the end of the text. */
  lemma {:induction false} LineEndSpec(s: string, i: nat)
    requires i <= |s|
    ensures var e := LineEnd(s, i);
      && (forall k :: i <= k < e ==> s[k] != '\n')
      && (e == |s| || s[e] == '\n')
    decreases |s| - i
  {
    if i < |s| && s[i] != '\n' {
      LineEndSpec(s, i + 1);
    }
  }

  /** `.` can match the character at index c. */
  predicate DotAt(s: string, c: nat) {
    c < |s| && s[c] != '\n'
  }

  /**
    The greedy `\s+` has consumed n characters from q; the engine gives them
    back one at a time until `.` can match after them, keeping at least one.
  */
  function GiveBack(s: string, q: nat, n: nat): (r: Option<nat>)
    requires q + n <= |s|
    ensures r.Some? ==> 1 <= r.value <= n
  {
    if n == 0 then None
    else if DotAt(s, q + n) then Some(n)
    else GiveBack(s, q, n - 1)
  }

  /**
    Backtracking keeps the longest prefix of the run, at least one character,
    after which `.` can match, and fails when there is none.
  */
  lemma {:induction false} GiveBackSpec(s: string, q: nat, n: nat)
    requires q + n <= |s|
    ensures var r := GiveBack(s, q, n);
      && (r.Some? ==> DotAt(s, q + r.value))
      && (r.Some? ==> forall c :: q + r.value < c <= q + n ==> !DotAt(s, c))
      && (r.None? ==> forall c :: q < c <= q + n ==> !DotAt(s, c))
  {
    if n > 0 && !DotAt(s, q + n) {
      GiveBackSpec(s, q, n - 1);
    }
  }

  /** The literal marker starts at index p. */
  predicate MarkerAt(s: string, marker: string, p: nat) {
    p + |marker| <= |s| && s[p..p + |marker|] == marker
  }

  /**
    Reference reading of the pattern: starting at p, the marker is present,
    `\s+` takes the k characters after it, and `.` can take the next one.
  */
  ghost predicate PatternAt(s: string, marker: string, p: nat, k: nat) {
    && MarkerAt(s, marker, p)
    && p + |marker| + k <= |s|
    && 1 <= k
    && (forall j :: p + |marker| <= j < p + |marker| + k ==> IsSpace(s[j]))
    && DotAt(s, p + |marker| + k)
  }

  /** How many characters `\s+` keeps when the pattern matches at p. */
  function Split(s: string, marker: string, p: nat): Option<nat>
    requires p <= |s|
  {
    if MarkerAt(s, marker, p) then
      var q := p + |marker|;
      GiveBack(s, q, WsRun(s, q))
    else None
  }

  /** The group-1 capture when the pattern matches at p; it never holds a line break. */
  function MatchAt(s: string, marker: string, p: nat): (r: Option<string>)
    requires p <= |s|
    ensures r.Some? ==> '\n' !in r.value
  {
    match Split(s, marker, p)
    case None => None
    case Some(k) =>
      var c := p + |marker| + k;
      var e := LineEnd(s, c);
      LineEndSpec(s, c);
      assert forall i :: 0 <= i < e - c ==> s[c..e][i] == s[c + i];
      Some(s[c..e])
  }

  /**
    The match at p is the one with the longest `\s+` that lets `.` match:
    Split picks exactly the greatest k for which PatternAt holds, and fails
    exactly when there is none.
  */
  lemma SplitSpec(s: string, marker: string, p: nat)
    requires p <= |s|
    ensures Split(s, marker, p).None? <==> forall k: nat :: !PatternAt(s, marker, p, k)
    ensures Split(s, marker, p).Some? ==>
      var k := Split(s, marker, p).value;
      PatternAt(s, marker, p, k) && forall k': nat :: PatternAt(s, marker, p, k') ==> k' <= k
  {
    var r := Split(s, marker, p);
    if MarkerAt(s, marker, p) {
      var q := p + |marker|;
      var n := WsRun(s, q);
      WsRunSpec(s, q);
      GiveBackSpec(s, q, n);
      forall k: nat | PatternAt(s, marker, p, k)
        ensures k <= n && r.Some? && k <= r.value
      {
        assert k <= n;
      }
      if r.Some? {
        assert PatternAt(s, marker, p, r.value);
      }
    }
  }

  /** re.search: the capture of the leftmost position where the pattern matches. */
  function Search(s: string, marker: string, from: nat): (r: Option<string>)
    requires from <= |s|
    ensures r.Some? ==> '\n' !in r.value
    decreases |s| - from
  {
    match MatchAt(s, marker, from)
    case Some(c) => Some(c)
    case None => if from == |s| then None else Search(s, marker, from + 1)
  }

  /** Search reports the match at the first position that matches. */
  lemma {:induction false} SearchFirst(s: string, marker: string, from: nat, p: nat)
    requires from <= p <= |s|
    requires MatchAt(s, marker, p).Some?
    requires forall p' :: from <= p' < p ==> MatchAt(s, marker, p').None?
    ensures Search(s, marker, from) == MatchAt(s, marker, p)
    decreases p - from
  {
    if from < p {
      SearchFirst(s, marker, from + 1, p);
    }
  }

  /** Search fails exactly when no position from `from` on matches. */
  lemma {:induction false} SearchNone(s: string, marker: string, from: nat)
    requires from <= |s|
    ensures Search(s, marker, from).None? <==>
      forall p :: from <= p <= |s| ==> MatchAt(s, marker, p).None?
    decreases |s| - from
  {
    if from < |s| {
      SearchNone(s, marker, from + 1);
    }
  }

  // ------------------------------------------------------------- the fields

  /**
    What extract_script_info stores under `key` for the given contents; no
    stored value spans more than one line.
  */
  function FieldValue(content: string, key: string): (r: string)
    ensures '\n' !in r
  {
    match Search(content, "@" + key, 0)
    case None => NA
    case Some(c) =>
      StripOneLine(c);
      EscapeKeepsChar(Strip(c), '\n');
      EscapeMdx(Strip(c))
  }

  /** Stripping a one-line text leaves a one-line text. */
  lemma StripOneLine(s: string)
    requires '\n' !in s
    ensures '\n' !in Strip(s)
  {
    var t := Strip(s);
    StripSpec(s);
    var a := |s| - |TrimStart(s)|;
    forall i | 0 <= i < |t| ensures t[i] != '\n' {
      assert t[i] == s[a + i];
    }
  }

  /**
    Where the pattern first matches, and with which split, decides what
    re.search captures.
  */
  lemma SearchCapturesFirst(s: string, marker: string, p: nat, k: nat)
    requires PatternAt(s, marker, p, k)
    requires forall k': nat :: PatternAt(s, marker, p, k') ==> k' <= k
    requires forall p': nat, k': nat :: p' < p ==> !PatternAt(s, marker, p', k')
    ensures var c := p + |marker| + k;
      Search(s, marker, 0) == Some(s[c..LineEnd(s, c)])
  {
    MatchWithSplit(s, marker, p, k);
    forall p' | 0 <= p' < p ensures MatchAt(s, marker, p').None? {
      NoMatchAt(s, marker, p');
    }
    SearchFirst(s, marker, 0, p);
  }

  /** With the largest k for which the pattern holds at p, the capture starts after k whitespace characters. */
  lemma MatchWithSplit(s: string, marker: string, p: nat, k: nat)
    requires PatternAt(s, marker, p, k)
    requires forall k': nat :: PatternAt(s, marker, p, k') ==> k' <= k
    ensures p <= |s|
    ensures var c := p + |marker| + k;
      MatchAt(s, marker, p) == Some(s[c..LineEnd(s, c)])
  {
    SplitSpec(s, marker, p);
    var r := Split(s, marker, p);
    assert r.Some? by {
      assert PatternAt(s, marker, p, k);
    }
    assert r.value == k by {
      assert PatternAt(s, marker, p, r.value);
    }
  }

  /** Where the pattern holds for no k, there is no match. */
  lemma NoMatchAt(s: string, marker: string, p: nat)
    requires p <= |s|
    requires forall k: nat :: !PatternAt(s, marker, p, k)
    ensures MatchAt(s, marker, p).None?
  {
    SplitSpec(s, marker, p);
  }

  /**
    A field is set from its first occurrence: if the pattern first matches at
    p, with `\s+` taking k characters, the value is the escaped, stripped rest
    of that line.
  */
  lemma FieldFromFirstMatch(content: string, key: string, p: nat, k: nat)
    requires PatternAt(content, "@" + key, p, k)
    requires forall k': nat :: PatternAt(content, "@" + key, p, k') ==> k' <= k
    requires forall p': nat, k': nat :: p' < p ==> !PatternAt(content, "@" + key, p', k')
    ensures var c := p + 1 + |key| + k;
      FieldValue(content, key) == EscapeMdx(Strip(content[c..LineEnd(content, c)]))
  {
    var m := "@" + key;
    var c := p + |m| + k;
    SearchCapturesFirst(content, m, p, k);
    assert Search(content, m, 0) == Some(content[c..LineEnd(content, c)]);
  }

  /**
    Every occurrence of the marker in `pre` is directly followed by a
    character that is not whitespace (as `@namespace` is for the marker
    `@name`), so none of them can start a match.
  */
  predicate InertMarkers(pre: string, marker: string) {
    forall i: nat :: MarkerAt(pre, marker, i) && i + |marker| < |pre| ==> !IsSpace(pre[i + |marker|])
  }

  /** A marker without '@' after its first character cannot start inside `pre` and end after it. */
  lemma MarkerInside(pre: string, key: string, t: string, p: nat)
    requires '@' !in key
    requires p < |pre|
    ensures MarkerAt(pre + ("@" + key) + t, "@" + key, p) ==> MarkerAt(pre, "@" + key, p)
  {
    var m := "@" + key;
    var s := pre + m + t;
    if p + |m| <= |pre| {
      assert s[p..p + |m|] == pre[p..p + |m|];
    } else if p + |m| <= |s| {
      assert s[p..p + |m|][|pre| - p] == '@';
      assert m[|pre| - p] == key[|pre| - p - 1];
    }
  }

  /** A slice of the right operand of a concatenation. */
  lemma SliceRight(a: string, b: string, i: nat, j: nat)
    requires i <= j <= |b|
    ensures (a + b)[|a| + i..|a| + j] == b[i..j]
  {
  }

  /** The capture starting at c is the one-line text v that stands there before a line break. */
  lemma CaptureAt(s: string, c: nat, v: string)
    requires c + |v| < |s| && s[c..c + |v|] == v && s[c + |v|] == '\n' && '\n' !in v
    ensures LineEnd(s, c) == c + |v| && s[c..LineEnd(s, c)] == v
  {
    LineEndSpec(s, c);
    forall k | c <= k < c + |v| ensures s[k] != '\n' {
      assert s[k] == v[k - c];
    }
  }

  /** Every character of `ws` is whitespace. */
  predicate AllSpace(ws: string) {
    forall i :: 0 <= i < |ws| ==> IsSpace(ws[i])
  }

  /**
    On a header line `@key`, whitespace `ws`, value `v`, the pattern first
    matches at the marker, with `\s+` taking all of `ws`.
  */
  lemma LineMatch(pre: string, key: string, ws: string, v: string, rest: string)
    requires '@' !in key
    requires InertMarkers(pre, "@" + key)
    requires ws != [] && AllSpace(ws)
    requires v != [] && !IsSpace(v[0]) && '\n' !in v
    ensures var s := pre + ("@" + key) + (ws + v + "\n" + rest);
      && PatternAt(s, "@" + key, |pre|, |ws|)
      && (forall k': nat :: PatternAt(s, "@" + key, |pre|, k') ==> k' <= |ws|)
      && (forall p': nat, k': nat :: p' < |pre| ==> !PatternAt(s, "@" + key, p', k'))
  {
    var m := "@" + key;
    var t := ws + v + "\n" + rest;
    var s := pre + m + t;
    var p := |pre|;
    var q := p + |m|;
    assert s[p..q] == m;
    forall j | q <= j < q + |ws| ensures IsSpace(s[j]) {
      assert s[j] == ws[j - q];
    }
    assert s[q + |ws|] == v[0];
    assert PatternAt(s, m, p, |ws|);
    forall k': nat | PatternAt(s, m, p, k') ensures k' <= |ws| {
      assert !IsSpace(s[q + |ws|]);
    }
    forall p': nat, k': nat | p' < p ensures !PatternAt(s, m, p', k') {
      MarkerInside(pre, key, t, p');
      if MarkerAt(s, m, p') {
        var j := p' + |m|;
        if j < |pre| {
          assert s[j] == pre[j];
        } else {
          assert s[j] == m[0];
        }
        assert !IsSpace(s[j]);
      }
    }
  }

  /** On such a line the value v stands right after the whitespace, followed by a line break. */
  lemma LineCapture(pre: string, m: string, ws: string, v: string, rest: string)
    ensures var s := pre + m + (ws + v + "\n" + rest);
      var c := |pre| + |m| + |ws|;
      c + |v| < |s| && s[c..c + |v|] == v && s[c + |v|] == '\n'
  {
    var t := ws + v + "\n" + rest;
    SliceRight(pre + m, t, |ws|, |ws| + |v|);
    assert t[|ws|..|ws| + |v|] == v && t[|ws| + |v|] == '\n';
  }

  /** re.search on such a header line captures v. */
  lemma SearchLine(pre: string, key: string, ws: string, v: string, rest: string)
    requires '@' !in key
    requires InertMarkers(pre, "@" + key)
    requires ws != [] && AllSpace(ws)
    requires v != [] && !IsSpace(v[0]) && '\n' !in v
    ensures Search(pre + ("@" + key) + (ws + v + "\n" + rest), "@" + key, 0) == Some(v)
  {
    var m := "@" + key;
    LineMatch(pre, key, ws, v, rest);
    LineCapture(pre, m, ws, v, rest);
    SearchAtLine(pre + m + (ws + v + "\n" + rest), m, |pre|, |ws|, v);
  }

  /** When the first match leaves a one-line text v before a line break, re.search captures v. */
  lemma SearchAtLine(s: string, marker: string, p: nat, k: nat, v: string)
    requires PatternAt(s, marker, p, k)
    requires forall k': nat :: PatternAt(s, marker, p, k') ==> k' <= k
    requires forall p': nat, k': nat :: p' < p ==> !PatternAt(s, marker, p', k')
    requires var c := p + |marker| + k;
      c + |v| < |s| && s[c..c + |v|] == v && s[c + |v|] == '\n'
    requires '\n' !in v
    ensures Search(s, marker, 0) == Some(v)
  {
    SearchCapturesFirst(s, marker, p, k);
    CaptureAt(s, p + |marker| + k, v);
  }

  /**
    The usual header line: when every earlier `@key` is directly followed
    by a non-space character (`@namespace` before `@name`), a line `@key`,
    whitespace, `v` gives the field the value v, stripped and escaped. The whitespace may hold line breaks, so `@key` alone on a line
    takes its value from the next non-blank line.
  */
  lemma FieldFromLine(pre: string, key: string, ws: string, v: string, rest: string)
    requires '@' !in key
    requires InertMarkers(pre, "@" + key)
    requires ws != [] && AllSpace(ws)
    requires v != [] && !IsSpace(v[0]) && '\n' !in v
    ensures FieldValue(pre + "@" + key + ws + v + "\n" + rest, key) == EscapeMdx(Strip(v))
  {
    SearchLine(pre, key, ws, v, rest);
    assert pre + "@" + key + ws + v + "\n" + rest == pre + ("@" + key) + (ws + v + "\n" + rest);
  }

  /** A field whose pattern matches nowhere keeps the default "N/A". */
  lemma FieldAbsent(content: string, key: string)
    requires forall p: nat, k: nat :: !PatternAt(content, "@" + key, p, k)
    ensures FieldValue(content, key) == NA
  {
    var m := "@" + key;
    forall p | 0 <= p <= |content| ensures MatchAt(content, m, p).None? {
      SplitSpec(content, m, p);
    }
    SearchNone(content, m, 0);
  }

  /** Conversely, a field that stays "N/A" either never matched or read "N/A". */
  lemma FieldNAIff(content: string, key: string)
    ensures FieldValue(content, key) == NA <==>
      Search(content, "@" + key, 0).None? || Strip(Search(content, "@" + key, 0).value) == NA
  {
    var r := Search(content, "@" + key, 0);
    if r.Some? {
      var t := Strip(r.value);
      assert CountSpecial(NA) == 0;
      EscapeFixedIff(NA);
      if EscapeMdx(t) == NA {
        EscapeInjective(t, NA);
      }
    }
  }

  /** A marker glued to a non-space character (`@namespace` for `@name`) does not match there. */
  lemma MarkerNeedsSpace(content: string, key: string, p: nat)
    requires MarkerAt(content, "@" + key, p) && p + 1 + |key| < |content|
    requires !IsSpace(content[p + 1 + |key|])
    ensures MatchAt(content, "@" + key, p).None?
  {
    var q := p + 1 + |key|;
    assert WsRun(content, q) == 0;
  }

  // ------------------------------------------------- extract_script_info

  /**
    extract_script_info with the file contents passed in: the dictionary
    starts with "N/A" under all four keys, and the loop over the patterns
    overwrites a key whenever its pattern is found.
  */
  method ExtractScriptInfo(content: string) returns (info: Info)
    ensures info.Keys == FieldKeys
    ensures forall key :: key in info ==> info[key] == FieldValue(content, key)
  {
    info := map["name" := NA, "description" := NA, "author" := NA, "downloadURL" := NA];
    FieldsListed();
    assert info.Keys == FieldKeys;
    var i := 0;
    while i < |Fields|
      invariant 0 <= i <= |Fields|
      invariant info.Keys == FieldKeys
      invariant forall j :: 0 <= j < |Fields| ==>
        info[Fields[j]] == if j < i then FieldValue(content, Fields[j]) else NA
    {
      var key := Fields[i];
      var m := Search(content, "@" + key, 0);
      if m.Some? {
        info := info[key := EscapeMdx(Strip(m.value))];
      } else {
        assert FieldValue(content, key) == NA;
      }
      i := i + 1;
    }
  }

  /** The patterns dictionary lists each of the four keys once. */
  lemma FieldsListed()
    ensures |Fields| == 4
    ensures forall j, k :: 0 <= j < k < |Fields| ==> Fields[j] != Fields[k]
    ensures forall key :: key in FieldKeys <==> key in Fields
    ensures map["name" := NA, "description" := NA, "author" := NA, "downloadURL" := NA].Keys == FieldKeys
  {
    assert Fields[1][1] != Fields[3][1];
  }
}
