/**
 * The `@{KEY}` placeholder grammar shared by `apply-vars` and `values`: the
 * regular expression `@\{([^}]+)\}` scanned left to right for non-overlapping
 * matches, the replacement callback of `apply-vars`, and the capture groups
 * that `values` collects.
 */
module Placeholder {
  import opened Results

  /** The variable map loaded from `variables.json`. */
  type VarMap = map<string, string>

  /** A capture of `[^}]+`: at least one character, none of them a closing brace. */
  predicate IsKey(k: string) {
    |k| >= 1 && forall i :: 0 <= i < |k| ==> k[i] != '}'
  }

  /** The text a match with capture `k` spans, delimiters included. */
  function Token(k: string): string {
    "@{" + k + "}"
  }

  /** Index of the first `}` in `s`, if there is one. */
  function FirstClose(s: string): (r: Option<nat>)
    ensures r.Some? ==> r.value < |s| && s[r.value] == '}'
    ensures r.Some? ==> forall j :: 0 <= j < r.value ==> s[j] != '}'
    ensures r.None? ==> forall j :: 0 <= j < |s| ==> s[j] != '}'
  {
    if s == [] then None
    else if s[0] == '}' then Some(0)
    else match FirstClose(s[1..])
      case None => None
      case Some(j) => Some(j + 1)
  }

  /**
   * The capture of the match that starts at `s[0]`, if one does. `[^}]+` is
   * greedy but cannot cross a `}`, so the key runs up to the first `}` after
   * `@{`, and there is no match when that `}` comes right after `@{`.
   */
  function TokenAt(s: string): (r: Option<string>)
    ensures r.Some? ==> IsKey(r.value) && |Token(r.value)| <= |s|
    ensures r.Some? ==> s[..|Token(r.value)|] == Token(r.value)
  {
    if |s| >= 2 && s[0] == '@' && s[1] == '{' then
      match FirstClose(s[2..])
      case Some(j) =>
        if j >= 1 then
          assert s[..j + 3] == "@{" + s[2..2 + j] + "}";
          Some(s[2..2 + j])
        else None
      case None => None
    else None
  }

  /** Every well-formed token is matched, and the capture is exactly its key. */
  lemma TokenAtToken(k: string, rest: string)
    requires IsKey(k)
    ensures TokenAt(Token(k) + rest) == Some(k)
  {
    var s := Token(k) + rest;
    var tail := s[2..];
    assert tail == k + "}" + rest;
    assert tail[|k|] == '}';
    assert forall j :: 0 <= j < |k| ==> tail[j] == k[j];
    assert FirstClose(tail) == Some(|k|);
    assert s[2..2 + |k|] == k;
  }

  /** `@{}` is not a token: the key must hold at least one character. */
  lemma EmptyBracesAreNotAToken(rest: string)
    ensures TokenAt("@{}" + rest) == None
  {
    var s := "@{}" + rest;
    assert s[2..][0] == '}';
  }

  /** What the scanner cuts the text into: a copied character, or one match. */
  datatype Piece = Char(c: char) | Match(key: string)

  /** The input text a piece covers. */
  function Text(p: Piece): (t: string)
    ensures |t| >= 1
  {
    match p
    case Char(c) => [c]
    case Match(k) => Token(k)
  }

  /** The input text a sequence of pieces covers. */
  function Source(ps: seq<Piece>): (s: string)
    ensures |s| >= |ps|
  {
    if ps == [] then [] else Text(ps[0]) + Source(ps[1..])
  }

  /**
   * The leftmost, non-overlapping scan for `@\{([^}]+)\}`: where a match
   * starts it is taken whole and scanning resumes after it, otherwise one
   * character is copied.
   */
  function Scan(s: string): (ps: seq<Piece>)
    ensures Source(ps) == s
    decreases |s|
  {
    if s == [] then []
    else match TokenAt(s)
      case Some(k) =>
        var rest := Scan(s[|Token(k)|..]);
        assert s == Token(k) + s[|Token(k)|..];
        [Match(k)] + rest
      case None =>
        var rest := Scan(s[1..]);
        assert s == [s[0]] + s[1..];
        [Char(s[0])] + rest
  }

  /**
   * Independent description of what the scan must return: the pieces spell
   * the input, every match has a well-formed key, and no match could have
   * started where a character is copied (matches are leftmost).
   */
  ghost predicate Tokenization(ps: seq<Piece>, s: string) {
    && Source(ps) == s
    && (forall i :: 0 <= i < |ps| && ps[i].Match? ==> IsKey(ps[i].key))
    && (forall i :: 0 <= i < |ps| && ps[i].Char? ==> TokenAt(Source(ps[i..])) == None)
  }

  /** The scan meets that description. */
  lemma {:induction false} ScanIsTokenization(s: string)
    ensures Tokenization(Scan(s), s)
    decreases |s|
  {
    if s != [] {
      var ps := Scan(s);
      match TokenAt(s)
      case Some(k) =>
        var tail := s[|Token(k)|..];
        ScanIsTokenization(tail);
        assert ps == [Match(k)] + Scan(tail);
        forall i | 0 <= i < |ps| && ps[i].Char?
          ensures TokenAt(Source(ps[i..])) == None
        {
          assert ps[i..] == Scan(tail)[i - 1..];
        }
      case None =>
        ScanIsTokenization(s[1..]);
        assert ps == [Char(s[0])] + Scan(s[1..]);
        forall i | 0 <= i < |ps| && ps[i].Char?
          ensures TokenAt(Source(ps[i..])) == None
        {
          if i > 0 {
            assert ps[i..] == Scan(s[1..])[i - 1..];
          }
        }
    }
  }

  /** ... and it is the only sequence of pieces that does. */
  lemma {:induction false} TokenizationIsUnique(ps: seq<Piece>, s: string)
    requires Tokenization(ps, s)
    ensures ps == Scan(s)
    decreases |ps|
  {
    if ps != [] {
      var tail := ps[1..];
      assert Source(ps) == Text(ps[0]) + Source(tail);
      assert forall i :: 0 <= i < |tail| ==> tail[i] == ps[i + 1] && tail[i..] == ps[i + 1..];
      assert Tokenization(tail, Source(tail));
      TokenizationIsUnique(tail, Source(tail));
      match ps[0]
      case Match(k) =>
        TokenAtToken(k, Source(tail));
        assert s[|Token(k)|..] == Source(tail);
      case Char(c) =>
        assert ps[0..] == ps;
        assert s[1..] == Source(tail);
    }
  }

  function TrimPrefix(s: string, prefix: string): string {
    if |prefix| <= |s| && s[..|prefix|] == prefix then s[|prefix|..] else s
  }

  function TrimSuffix(s: string, suffix: string): string {
    if |suffix| <= |s| && s[|s| - |suffix|..] == suffix then s[..|s| - |suffix|] else s
  }

  /** How the replacement callback recovers the key from the matched text. */
  function CallbackKey(m: string): string {
    TrimSuffix(TrimPrefix(m, "@{"), "}")
  }

  /** Trimming the delimiters off any `@{...}` text gives what lies between them. */
  lemma CallbackKeyOfDelimited(m: string)
    requires |m| >= 3 && m[..2] == "@{" && m[|m| - 1] == '}'
    ensures CallbackKey(m) == m[2..|m| - 1]
  {
    var inner := m[2..];
    assert TrimPrefix(m, "@{") == inner;
    assert inner[|inner| - 1..] == "}";
  }

  /**
   * The replacement callback: for a match `@{key}`, the value of `key` when
   * it is defined and the match itself otherwise; it never makes up text.
   */
  function Replacement(m: string, vars: VarMap): (r: string)
    ensures r == m || r in vars.Values
    ensures |m| >= 3 && m[..2] == "@{" && m[|m| - 1] == '}' ==>
      r == (if m[2..|m| - 1] in vars then vars[m[2..|m| - 1]] else m)
  {
    if |m| >= 3 && m[..2] == "@{" && m[|m| - 1] == '}' then
      CallbackKeyOfDelimited(m);
      var key := CallbackKey(m);
      if key in vars then vars[key] else m
    else
      var key := CallbackKey(m);
      if key in vars then vars[key] else m
  }

  /** Trimming the delimiters off a match gives back its capture group. */
  lemma CallbackKeyOfToken(k: string)
    ensures CallbackKey(Token(k)) == k
  {
    var t := Token(k);
    assert t[..2] == "@{";
    var inner := t[2..];
    assert TrimPrefix(t, "@{") == inner == k + "}";
    assert inner[|inner| - 1..] == "}";
    assert inner[..|inner| - 1] == k;
  }

  /** The output for a sequence of pieces: characters copied, matches through the callback. */
  function Render(ps: seq<Piece>, vars: VarMap): string {
    if ps == [] then []
    else
      (match ps[0]
       case Char(c) => [c]
       case Match(k) => Replacement(Token(k), vars))
      + Render(ps[1..], vars)
  }

  /** `re.ReplaceAllStringFunc(text, callback)`: a text without an `@` comes out unchanged. */
  function Substitute(s: string, vars: VarMap): (r: string)
    ensures '@' !in s ==> r == s
  {
    if '@' !in s then
      MatchesWithoutAt(s);
      RenderWithoutDefinedKeys(Scan(s), vars);
      Render(Scan(s), vars)
    else
      Render(Scan(s), vars)
  }

  /** The capture groups of all matches, in order, repeats included. */
  function Captures(ps: seq<Piece>): (ks: seq<string>)
    ensures |ks| <= |ps|
  {
    if ps == [] then []
    else
      (match ps[0]
       case Char(_) => []
       case Match(k) => [k])
      + Captures(ps[1..])
  }

  /** `re.FindAllStringSubmatch(text, -1)`, reduced to the capture of each match: every one a well-formed key. */
  function Matches(s: string): (ks: seq<string>)
    ensures forall k :: k in ks ==> IsKey(k)
  {
    ScanIsTokenization(s);
    CapturesAreKeys(Scan(s));
    Captures(Scan(s))
  }

  /** Every capture is a well-formed key. */
  lemma {:induction false} CapturesAreKeys(ps: seq<Piece>)
    requires forall i :: 0 <= i < |ps| && ps[i].Match? ==> IsKey(ps[i].key)
    ensures forall k :: k in Captures(ps) ==> IsKey(k)
  {
    if ps != [] {
      CapturesAreKeys(ps[1..]);
    }
  }

  /** A piece whose key is not in the map renders as the text it covers. */
  lemma {:induction false} RenderWithoutDefinedKeys(ps: seq<Piece>, vars: VarMap)
    requires forall k :: k in Captures(ps) ==> k !in vars
    ensures Render(ps, vars) == Source(ps)
  {
    if ps != [] {
      RenderWithoutDefinedKeys(ps[1..], vars);
      if ps[0].Match? {
        CallbackKeyOfToken(ps[0].key);
      }
    }
  }

  /** When the map defines none of the keys found, the text comes out unchanged. */
  lemma SubstituteWithoutDefinedKeys(s: string, vars: VarMap)
    requires forall k :: k in Matches(s) ==> k !in vars
    ensures Substitute(s, vars) == s
  {
    RenderWithoutDefinedKeys(Scan(s), vars);
  }

  /** In particular an empty variable map changes nothing. */
  lemma SubstituteEmptyMap(s: string)
    ensures Substitute(s, map[]) == s
  {
    SubstituteWithoutDefinedKeys(s, map[]);
  }

  /**
   * A token at the front is replaced whole, delimiters included, by the value
   * of its key when the key is defined and is passed through byte for byte
   * when it is not; scanning resumes right after it.
   */
  lemma SubstituteAtToken(k: string, rest: string, vars: VarMap)
    requires IsKey(k)
    ensures Substitute(Token(k) + rest, vars)
         == (if k in vars then vars[k] else Token(k)) + Substitute(rest, vars)
  {
    var s := Token(k) + rest;
    ScanAtToken(k, rest);
    CallbackKeyOfToken(k);
    assert Scan(s)[1..] == Scan(rest);
  }

  /** A token at the front is one match, and scanning resumes right after it. */
  lemma ScanAtToken(k: string, rest: string)
    requires IsKey(k)
    ensures Scan(Token(k) + rest) == [Match(k)] + Scan(rest)
  {
    var s := Token(k) + rest;
    TokenAtToken(k, rest);
    assert s[|Token(k)|..] == rest;
  }

  /** Where no token starts, the character is copied and scanning moves on by one. */
  lemma SubstituteAtChar(s: string, vars: VarMap)
    requires s != [] && TokenAt(s) == None
    ensures Substitute(s, vars) == [s[0]] + Substitute(s[1..], vars)
  {
    assert Scan(s) == [Char(s[0])] + Scan(s[1..]);
    assert Scan(s)[1..] == Scan(s[1..]);
  }

  /** Inserted values are not scanned again, even when they look like tokens. */
  lemma ValuesAreNotRescanned()
    ensures Substitute("@{A}", map["A" := "@{B}", "B" := "x"]) == "@{B}"
  {
    var vars := map["A" := "@{B}", "B" := "x"];
    assert IsKey("A");
    SubstituteAtToken("A", "", vars);
    assert Token("A") + "" == "@{A}";
  }

  /** Text without an `@` holds no token. */
  lemma {:induction false} MatchesWithoutAt(s: string)
    requires '@' !in s
    ensures Matches(s) == []
  {
    if s != [] {
      assert s[0] != '@';
      assert Scan(s) == [Char(s[0])] + Scan(s[1..]);
      assert Scan(s)[1..] == Scan(s[1..]);
      assert '@' !in s[1..] by {
        assert forall i :: 0 <= i < |s| - 1 ==> s[1..][i] == s[i + 1];
      }
      MatchesWithoutAt(s[1..]);
    }
  }

  /** An `@` in front of `{b}` spells the token of `b`. */
  lemma CompletedToken(b: string)
    ensures "@" + ("{" + b + "}") == Token(b)
  {
    var l := "@" + ("{" + b + "}");
    assert |l| == |Token(b)|;
    forall i | 0 <= i < |l|
      ensures l[i] == Token(b)[i]
    {
      if 2 <= i < |l| - 1 {
        assert l[i] == b[i - 2];
      }
    }
  }

  /**
   * Defining every key found in a text, with non-empty values, does not
   * guarantee a token-free result: a value can complete a token with the
   * text that follows it. `@{a}{b}` holds the single key `a`; mapping `a`
   * to `@` yields `@{b}`, which holds the key `b`.
   */
  lemma DefiningAllKeysCanLeaveTokens(a: string, b: string)
    requires IsKey(a) && IsKey(b) && '@' !in b
    ensures Matches(Token(a) + ("{" + b + "}")) == [a]
    ensures Substitute(Token(a) + ("{" + b + "}"), map[a := "@"]) == Token(b)
    ensures Matches(Token(b)) == [b]
  {
    var tail := "{" + b + "}";
    assert '@' !in tail by {
      assert forall i :: 0 <= i < |tail| ==> tail[i] == '{' || tail[i] == '}' || tail[i] in b;
    }
    MatchesWithoutAt(tail);
    ScanAtToken(a, tail);
    assert Scan(Token(a) + tail)[1..] == Scan(tail);
    SubstituteAtToken(a, tail, map[a := "@"]);
    SubstituteWithoutDefinedKeys(tail, map[a := "@"]);
    CompletedToken(b);
    ScanAtToken(b, "");
    assert Token(b) + "" == Token(b);
    assert Scan(Token(b))[1..] == [];
  }
}
