/** gnu-efi/lib/str.c: MetaMatch, the wildcard matcher, against the language of its patterns. */
module MetaMatchModel {
  import opened CStrings
  import opened Options

  // ----- patterns and their language

  datatype Token = Star | AnyOne | OneOf(content: text) | Literal(c: char)

  /** The position of the first closing bracket from `i` on, or the length. */
  function Closing(p: text, i: nat): (k: nat)
    requires i <= |p|
    ensures i <= k <= |p| && (k < |p| ==> p[k] == ']') && forall j | i <= j < k :: p[j] != ']'
    decreases |p| - i
  {
    if i == |p| || p[i] == ']' then i else Closing(p, i + 1)
  }

  /** The tokens of a pattern; none if a set is not closed. */
  function Tokens(p: text): Option<seq<Token>> {
    if p == [] then Some([])
    else if p[0] == '[' then
      var k := Closing(p, 1);
      if k == |p| then None else Prepend(OneOf(p[1..k]), Tokens(p[k + 1..]))
    else Prepend(if p[0] == '*' then Star else if p[0] == '?' then AnyOne else Literal(p[0]), Tokens(p[1..]))
  }

  function Prepend(t: Token, rest: Option<seq<Token>>): Option<seq<Token>> {
    match rest
    case None => None
    case Some(ts) => Some([t] + ts)
  }

  /** Position `i` of a set admits `c`: a plain character, or a dash with the range from the
      character before it (everything, at the start) to the one after it. */
  predicate Admits(content: text, i: nat, c: char)
    requires i < |content|
  {
    if content[i] != '-' then c == content[i]
    else i + 1 < |content| && (c == content[i + 1] || ((i == 0 || content[i - 1] <= c) && c <= content[i + 1]))
  }

  predicate InSet(content: text, c: char) {
    exists i | 0 <= i < |content| :: Admits(content, i, c)
  }

  predicate OneChar(t: Token, c: char)
    requires !t.Star?
  {
    match t
    case AnyOne => true
    case OneOf(content) => InSet(content, c)
    case Literal(d) => c == d
  }

  /** The strings a token stands for. */
  predicate Denotes(t: Token, piece: text) {
    t.Star? || (|piece| == 1 && OneChar(t, piece[0]))
  }

  /** `s` is a concatenation of strings, one for each token. */
  ghost predicate Matches(ts: seq<Token>, s: text) {
    exists pieces: seq<text> :: Splits(ts, s, pieces)
  }

  ghost predicate Splits(ts: seq<Token>, s: text, pieces: seq<text>) {
    |pieces| == |ts| && Concat(pieces) == s && forall i | 0 <= i < |ts| :: Denotes(ts[i], pieces[i])
  }

  lemma MatchesNothing(s: text)
    ensures Matches([], s) <==> s == []
  {
    if s == [] {
      assert Splits([], s, []);
    }
  }

  lemma SplitFirst(t: Token, ts: seq<Token>, s: text, pieces: seq<text>)
    requires Splits([t] + ts, s, pieces)
    ensures Denotes(t, pieces[0]) && |pieces[0]| <= |s| && s[..|pieces[0]|] == pieces[0]
    ensures Matches(ts, s[|pieces[0]|..])
  {
    assert Denotes(([t] + ts)[0], pieces[0]);
    forall i | 0 <= i < |ts|
      ensures Denotes(ts[i], pieces[1..][i])
    {
      assert ([t] + ts)[i + 1] == ts[i];
    }
    assert Splits(ts, s[|pieces[0]|..], pieces[1..]);
  }

  lemma PrependPiece(t: Token, ts: seq<Token>, s: text, k: nat)
    requires k <= |s| && Denotes(t, s[..k]) && Matches(ts, s[k..])
    ensures Matches([t] + ts, s)
  {
    var pieces :| Splits(ts, s[k..], pieces);
    var all := [s[..k]] + pieces;
    assert all[1..] == pieces && s[..k] + s[k..] == s;
    assert Splits([t] + ts, s, all);
  }

  /** A token for one character takes the first character. */
  lemma MatchesOne(t: Token, ts: seq<Token>, s: text)
    requires !t.Star?
    ensures Matches([t] + ts, s) <==> s != [] && OneChar(t, s[0]) && Matches(ts, s[1..])
  {
    if Matches([t] + ts, s) {
      var pieces :| Splits([t] + ts, s, pieces);
      SplitFirst(t, ts, s, pieces);
      assert s[..1][0] == s[0];
    }
    if s != [] && OneChar(t, s[0]) && Matches(ts, s[1..]) {
      PrependPiece(t, ts, s, 1);
    }
  }

  /** A star takes any number of characters. */
  lemma MatchesStar(ts: seq<Token>, s: text)
    ensures Matches([Star] + ts, s) <==> exists k | 0 <= k <= |s| :: Matches(ts, s[k..])
  {
    if Matches([Star] + ts, s) {
      var pieces :| Splits([Star] + ts, s, pieces);
      SplitFirst(Star, ts, s, pieces);
    }
    if k :| 0 <= k <= |s| && Matches(ts, s[k..]) {
      PrependPiece(Star, ts, s, k);
    }
  }

  lemma StarFrom(ts: seq<Token>, s: text, start: nat)
    requires start <= |s|
    ensures Matches([Star] + ts, s[start..]) <==> exists k | start <= k <= |s| :: Matches(ts, s[k..])
  {
    hide Matches;
    MatchesStar(ts, s[start..]);
    if k :| 0 <= k <= |s| - start && Matches(ts, s[start..][k..]) {
      assert s[start..][k..] == s[start + k..];
    }
    if k :| start <= k <= |s| && Matches(ts, s[k..]) {
      assert s[k..] == s[start..][k - start..];
    }
  }

  lemma TokensUnfold(p: text)
    requires p != []
    ensures p[0] != '[' ==>
              Tokens(p) ==
                Prepend(if p[0] == '*' then Star else if p[0] == '?' then AnyOne else Literal(p[0]), Tokens(p[1..]))
    ensures p[0] == '[' ==>
              var k := Closing(p, 1);
              Tokens(p) == if k == |p| then None else Prepend(OneOf(p[1..k]), Tokens(p[k + 1..]))
  {
    hide Closing, Prepend;
  }

  lemma TokensStep(p: text)
    requires p != [] && Tokens(p).Some?
    ensures p[0] != '[' ==>
              Tokens(p[1..]).Some? && Tokens(p).value ==
              [if p[0] == '*' then Star else if p[0] == '?' then AnyOne else Literal(p[0])] + Tokens(p[1..]).value
    ensures p[0] == '[' ==>
              var k := Closing(p, 1);
              k < |p| && Tokens(p[k + 1..]).Some? && Tokens(p).value == [OneOf(p[1..k])] + Tokens(p[k + 1..]).value
  {
    TokensUnfold(p);
    ClosingBound(p);
    hide Tokens, Closing;
  }

  lemma ClosingBound(p: text)
    requires p != []
    ensures 1 <= Closing(p, 1) <= |p|
  {
  }

  /** Looking from inside a pattern or from its suffix is the same. */
  lemma {:induction false} ClosingSuffix(p: text, a: nat, i: nat)
    requires a <= |p| && i <= |p| - a
    ensures Closing(p, a + i) == a + Closing(p[a..], i)
    decreases |p| - a - i
  {
    if i < |p| - a && p[a + i] != ']' {
      ClosingSuffix(p, a, i + 1);
    }
  }

  // ----- what sets admit

  /** A set without a dash admits exactly its characters. */
  lemma SetOfCharacters(content: text, c: char)
    requires '-' !in content
    ensures InSet(content, c) <==> c in content
  {
    if c in content {
      var i :| 0 <= i < |content| && content[i] == c;
      assert content[i] in content && Admits(content, i, c);
    }
    if i :| 0 <= i < |content| && Admits(content, i, c) {
      assert content[i] in content;
    }
  }

  /** A range admits exactly what is between its ends, and the ends, even the wrong way round. */
  lemma SetOfRange(lo: char, hi: char, c: char)
    requires lo != '-' && hi != '-'
    ensures InSet([lo, '-', hi], c) <==> lo <= c <= hi || c == lo || c == hi
  {
    var content := [lo, '-', hi];
    assert Admits(content, 0, c) <==> c == lo;
    assert Admits(content, 1, c) <==> c == hi || lo <= c <= hi;
    assert Admits(content, 2, c) <==> c == hi;
  }

  /** A dash at the start is a range from the least character. */
  lemma SetFromDash(hi: char, c: char)
    requires hi != '-'
    ensures InSet(['-', hi], c) <==> c <= hi
  {
    var content := ['-', hi];
    assert Admits(content, 0, c) <==> c <= hi;
    assert Admits(content, 1, c) <==> c == hi;
  }

  /** A dash at the end admits nothing, and a set of nothing but a dash neither. */
  lemma SetToDash(content: text, c: char)
    requires content == [] || content[|content| - 1] != '-'
    ensures InSet(content + ['-'], c) <==> InSet(content, c)
  {
    var s := content + ['-'];
    forall i | 0 <= i < |content|
      ensures Admits(s, i, c) <==> Admits(content, i, c)
    {
    }
  }

  /** Sets can be taken apart where neither side is a dash. */
  lemma SetOfParts(a: text, b: text, c: char)
    requires a != [] && b != [] && a[|a| - 1] != '-' && b[0] != '-'
    ensures InSet(a + b, c) <==> InSet(a, c) || InSet(b, c)
  {
    var s := a + b;
    forall i | 0 <= i < |a|
      ensures Admits(s, i, c) <==> Admits(a, i, c)
    {
    }
    forall i | 0 <= i < |b|
      ensures Admits(s, |a| + i, c) <==> Admits(b, i, c)
    {
    }
    if i :| 0 <= i < |s| && Admits(s, i, c) {
      assert i < |a| ==> Admits(a, i, c);
      assert i >= |a| ==> Admits(b, i - |a|, c);
    }
  }

  /** A range may begin where another one ends. */
  lemma SetWithRange(a: text, hi: char, c: char)
    requires a != [] && a[|a| - 1] != '-' && hi != '-'
    ensures InSet(a + ['-', hi], c) <==> InSet(a, c) || a[|a| - 1] <= c <= hi || c == hi
  {
    var s, n := a + ['-', hi], |a|;
    forall i | 0 <= i < n
      ensures Admits(s, i, c) <==> Admits(a, i, c)
    {
    }
    assert Admits(s, n, c) <==> c == hi || a[n - 1] <= c <= hi;
    assert Admits(s, n + 1, c) <==> c == hi;
  }

  /** For example, the characters of identifiers. */
  lemma WordSet(c: char)
    ensures InSet("a-zA-Z0-9_", c) <==> 'a' <= c <= 'z' || 'A' <= c <= 'Z' || '0' <= c <= '9' || c == '_'
  {
    hide InSet;
    SetOfRange('a', 'z', c);
    SetOfRange('A', 'Z', c);
    SetOfRange('0', '9', c);
    SetOfCharacters("_", c);
    SetOfParts("0-9", "_", c);
    SetOfParts("A-Z", "0-9_", c);
    SetOfParts("a-z", "A-Z0-9_", c);
    assert "0-9" + "_" == "0-9_" && "A-Z" + "0-9_" == "A-Z0-9_" && "a-z" + "A-Z0-9_" == "a-zA-Z0-9_";
  }

  // ----- what patterns match

  /** The strings a pattern matches; none if it has a set that is not closed. */
  ghost predicate Language(pattern: text, s: text) {
    Tokens(pattern).Some? && Matches(Tokens(pattern).value, s)
  }

  /** The language of a pattern, by its first character. */
  lemma LanguageMeans(pattern: text, s: text)
    ensures pattern == [] ==> (Language(pattern, s) <==> s == [])
    ensures pattern != [] && pattern[0] == '*' ==>
              (Language(pattern, s) <==> exists k | 0 <= k <= |s| :: Language(pattern[1..], s[k..]))
    ensures pattern != [] && pattern[0] == '?' ==>
              (Language(pattern, s) <==> s != [] && Language(pattern[1..], s[1..]))
    ensures pattern != [] && pattern[0] !in "*?[" ==>
              (Language(pattern, s) <==> s != [] && s[0] == pattern[0] && Language(pattern[1..], s[1..]))
  {
    hide Matches, Tokens;
    NoTokens();
    MatchesNothing(s);
    if pattern != [] {
      TokensUnfold(pattern);
      if Tokens(pattern[1..]).Some? {
        var ts := Tokens(pattern[1..]).value;
        MatchesStar(ts, s);
        MatchesOne(AnyOne, ts, s);
        MatchesOne(Literal(pattern[0]), ts, s);
      }
    }
  }

  /** A set at the front takes one character that it admits. */
  lemma LanguageOfSet(content: text, rest: text, s: text)
    requires ']' !in content
    ensures Language(['['] + content + [']'] + rest, s) <==> s != [] && InSet(content, s[0]) && Language(rest, s[1..])
  {
    hide Matches, Tokens, InSet;
    var pattern := ['['] + content + [']'] + rest;
    ClosingIs(pattern, 1, 1 + |content|);
    assert pattern[1..1 + |content|] == content && pattern[1 + |content| + 1..] == rest;
    TokensUnfold(pattern);
    if Tokens(rest).Some? {
      MatchesOne(OneOf(content), Tokens(rest).value, s);
    }
  }

  lemma {:induction false} ClosingIs(p: text, i: nat, k: nat)
    requires i <= k < |p| && p[k] == ']' && forall j | i <= j < k :: p[j] != ']'
    ensures Closing(p, i) == k
    decreases k - i
  {
    if i < k {
      ClosingIs(p, i + 1, k);
    }
  }

  /** A pattern without special characters matches itself alone. */
  lemma {:induction false} LanguageOfText(pattern: text, s: text)
    requires forall c | c in pattern :: c !in "*?["
    ensures Language(pattern, s) <==> s == pattern
  {
    hide Language;
    LanguageMeans(pattern, s);
    if pattern != [] {
      assert pattern[0] in pattern;
      if s != [] {
        LanguageOfText(pattern[1..], s[1..]);
        assert s == [s[0]] + s[1..] && pattern == [pattern[0]] + pattern[1..];
      }
    }
  }

  // ----- the matcher

  /** The part of MetaMatch for a set: `start` is just behind the opening bracket. If the set
      admits `c`, the position behind the closing bracket. */
  method MatchSet(pattern: text, start: nat, c: char) returns (found: bool, next: nat)
    requires CString(pattern) && start <= |pattern| && Closing(pattern, start) < |pattern|
    ensures found <==> InSet(pattern[start..Closing(pattern, start)], c)
    ensures found ==> next == Closing(pattern, start) + 1
  {
    ghost var end := Closing(pattern, start);
    ghost var content := pattern[start..end];
    var l := '\0';
    var i := start;
    var p := At(pattern, i);
    i := i + 1;
    while p != '\0'
      invariant start < i <= end + 1 && p == pattern[i - 1]
      invariant forall j | 0 <= j < i - 1 - start :: !Admits(content, j, c)
      invariant i - 1 > start ==> l == if pattern[i - 2] == '-' then pattern[i - 1] else pattern[i - 2]
      invariant i - 1 == start ==> l == '\0'
      decreases end + 1 - i
    {
      if p == ']' {
        return false, 0;
      }
      assert content[i - 1 - start] == p;
      if p == '-' {
        p := At(pattern, i);
        if p == '\0' || p == ']' {
          assert i == end;
          return false, 0;
        }
        assert content[i - start] == p;
        if c >= l && c <= p {
          assert Admits(content, i - 1 - start, c);
          break;
        }
      }
      l := p;
      if c == p {
        assert Admits(content, i - 1 - start, c);
        break;
      }
      assert !Admits(content, i - 1 - start, c);
      p := At(pattern, i);
      i := i + 1;
    }
    found := true;
    while p != '\0' && p != ']'
      invariant start < i <= end + 1 && (p == ']' ==> i == end + 1) && (i == end + 1 ==> p == ']') && p != '\0'
      decreases end + 1 - i
    {
      p := At(pattern, i);
      i := i + 1;
    }
    next := i;
  }

  /** TRUE exactly when the string is in the language of the pattern; the recursion is on the
      length of the pattern. */
  method MetaMatch(str: text, pattern: text) returns (result: bool)
    requires CString(str) && CString(pattern) && Tokens(pattern).Some?
    ensures result <==> Matches(Tokens(pattern).value, str)
    ensures result <==> Language(pattern, str)
    decreases |pattern|, 1
  {
    hide Matches, Tokens, InSet, Closing;
    var s, p := 0, 0;
    assert str[0..] == str && pattern[0..] == pattern;
    while true
      invariant s <= |str| && p <= |pattern| && Tokens(pattern[p..]).Some?
      invariant Matches(Tokens(pattern).value, str) <==> Matches(Tokens(pattern[p..]).value, str[s..])
      decreases |pattern| - p
    {
      ghost var rest, tail := pattern[p..], str[s..];
      var ch := At(pattern, p);
      p := p + 1;
      if ch == '\0' {
        NoTokens();
        MatchesNothing(tail);
        assert rest == [];
        return At(str, s) == '\0';
      }
      TokensStep(rest);
      assert rest[1..] == pattern[p..] && (s < |str| ==> tail[0] == str[s] && tail[1..] == str[s + 1..]);
      if ch == '*' {
        StarFrom(Tokens(rest[1..]).value, str, s);
        result := MatchStar(str, s, pattern, p);
        return;
      } else if ch == '?' {
        MatchesOne(AnyOne, Tokens(rest[1..]).value, tail);
        if At(str, s) == '\0' {
          return false;
        }
        s := s + 1;
      } else if ch == '[' {
        ghost var k := Closing(rest, 1);
        ClosingSuffix(pattern, p - 1, 1);
        MatchesOne(OneOf(rest[1..k]), Tokens(rest[k + 1..]).value, tail);
        assert pattern[p..p - 1 + k] == rest[1..k] && pattern[p + k..] == rest[k + 1..];
        var c := At(str, s);
        if c == '\0' {
          return false;
        }
        var found, next := MatchSet(pattern, p, c);
        if !found {
          return false;
        }
        p := next;
        s := s + 1;
      } else {
        MatchesOne(Literal(ch), Tokens(rest[1..]).value, tail);
        if At(str, s) != ch {
          return false;
        }
        s := s + 1;
      }
    }
  }

  lemma NoTokens()
    ensures Tokens([]) == Some([])
  {
  }

  /** The part of MetaMatch for a star. */
  method MatchStar(str: text, start: nat, pattern: text, p: nat) returns (result: bool)
    requires CString(str) && CString(pattern) && start <= |str| && 0 < p <= |pattern| && Tokens(pattern[p..]).Some?
    ensures result <==> exists k | start <= k <= |str| :: Matches(Tokens(pattern[p..]).value, str[k..])
    decreases |pattern|, 0
  {
    var s := start;
    while At(str, s) != '\0'
      invariant start <= s <= |str|
      invariant forall k | start <= k < s :: !Matches(Tokens(pattern[p..]).value, str[k..])
      decreases |str| - s
    {
      var found := MetaMatch(str[s..], pattern[p..]);
      if found {
        return true;
      }
      s := s + 1;
    }
    result := MetaMatch(str[s..], pattern[p..]);
  }
}
