/** Named-placeholder substitution: `prepareQuery` replaces every `@name`
    token of a query template with the escaped literal of the parameter it
    names, in one left-to-right pass of the regular expression `/@(\w+)/g`. */
module Placeholders {
  import opened Values

  /** `\w` without the unicode flag: ASCII letters, digits and underscore. */
  predicate IsWordChar(c: char) {
    ('a' <= c <= 'z') || ('A' <= c <= 'Z') || ('0' <= c <= '9') || c == '_'
  }

  /** A non-empty run of word characters: what `(\w+)` captures. */
  predicate IsWord(s: string) {
    |s| > 0 && forall i :: 0 <= i < |s| ==> IsWordChar(s[i])
  }

  /** True when `rest` cannot extend a word run that ends just before it. */
  predicate StartsWithoutWordChar(rest: string) {
    rest == [] || !IsWordChar(rest[0])
  }

  /** True when a token starts at the front of `q`: an `@` followed by a word character. */
  predicate TokenAtFront(q: string) {
    |q| >= 2 && q[0] == '@' && IsWordChar(q[1])
  }

  /** True when `q` holds no token at all: no `@` is directly followed by a word character. */
  predicate NoTokens(q: string) {
    forall i :: 0 <= i < |q| - 1 ==> !(q[i] == '@' && IsWordChar(q[i + 1]))
  }

  /** The length of the longest prefix of `s` made of word characters: the
      greedy `\w+`. */
  function WordRun(s: string): (n: nat)
    ensures n <= |s|
    ensures forall i :: 0 <= i < n ==> IsWordChar(s[i])
    ensures n < |s| ==> !IsWordChar(s[n])
  {
    if s == [] || !IsWordChar(s[0]) then 0 else 1 + WordRun(s[1..])
  }

  /** The text that replaces the token `@key`: the escaped value of the bare
      key if the mapping has it, else that of the `@`-prefixed key, else the
      token itself. */
  function RenderToken(key: string, params: map<string, Value>, escape: Value -> string): (t: string)
  {
    if key in params then escape(params[key])
    else if "@" + key in params then escape(params["@" + key])
    else "@" + key
  }

  /** The `String.replace` pass over `q` with the given own properties. */
  function Substitute(q: string, params: map<string, Value>, escape: Value -> string): (sql: string)
    decreases |q|
  {
    if q == [] then []
    else if TokenAtFront(q) then
      var n := WordRun(q[1..]);
      RenderToken(q[1..1 + n], params, escape) + Substitute(q[1 + n..], params, escape)
    else [q[0]] + Substitute(q[1..], params, escape)
  }

  /** `prepareQuery(query, parameters)`: a null or non-object `parameters`
      leaves the query as it is; an object's own properties are substituted. */
  function PrepareQuery(query: string, parameters: Value, escape: Value -> string): (sql: string)
    ensures !parameters.Obj? ==> sql == query
  {
    if parameters.Obj? then Substitute(query, parameters.props, escape) else query
  }

  // ---------------------------------------------------------------------
  // Building blocks

  lemma SubstituteCharStep(q: string, params: map<string, Value>, escape: Value -> string)
    requires q != [] && !TokenAtFront(q)
    ensures Substitute(q, params, escape) == [q[0]] + Substitute(q[1..], params, escape)
  {
  }

  /** A query without tokens comes back unchanged, whatever the mapping. */
  lemma {:induction false} SubstituteNoTokens(q: string, params: map<string, Value>, escape: Value -> string)
    requires NoTokens(q)
    ensures Substitute(q, params, escape) == q
    decreases |q|
  {
    if q != [] {
      assert !TokenAtFront(q);
      assert NoTokens(q[1..]) by {
        forall i | 0 <= i < |q[1..]| - 1
          ensures !(q[1..][i] == '@' && IsWordChar(q[1..][i + 1]))
        {
          assert q[1..][i] == q[i + 1] && q[1..][i + 1] == q[i + 2];
        }
      }
      SubstituteNoTokens(q[1..], params, escape);
      assert [q[0]] + q[1..] == q;
    }
  }

  /** A key that a token could look up: a word, or `@` followed by a word. */
  predicate IsTokenKey(k: string) {
    IsWord(k) || (|k| > 0 && k[0] == '@' && IsWord(k[1..]))
  }

  /** A mapping none of whose keys a token could look up leaves every query
      unchanged: each token is kept verbatim. */
  lemma {:induction false} NoKeysLeaveQuery(q: string, params: map<string, Value>, escape: Value -> string)
    requires forall k :: k in params ==> !IsTokenKey(k)
    ensures Substitute(q, params, escape) == q
    decreases |q|
  {
    if q == [] {
    } else if TokenAtFront(q) {
      var key, rest := TokenParts(q);
      assert key !in params;
      assert ("@" + key)[1..] == key;
      assert "@" + key !in params;
      SubstituteToken(key, rest, params, escape);
      NoKeysLeaveQuery(rest, params, escape);
    } else {
      SubstituteCharStep(q, params, escape);
      NoKeysLeaveQuery(q[1..], params, escape);
      assert [q[0]] + q[1..] == q;
    }
  }

  /** A word run stops at the end of `s1` when what follows cannot extend it. */
  lemma {:induction false} WordRunAppend(s1: string, s2: string)
    requires StartsWithoutWordChar(s2)
    ensures WordRun(s1 + s2) == WordRun(s1)
    decreases |s1|
  {
    if s1 == [] {
    } else if !IsWordChar(s1[0]) {
      assert (s1 + s2)[0] == s1[0];
    } else {
      assert (s1 + s2)[0] == s1[0];
      assert (s1 + s2)[1..] == s1[1..] + s2;
      WordRunAppend(s1[1..], s2);
    }
  }

  /** Substitution distributes over a split point that cannot fall inside a
      token: text is copied unchanged between tokens. */
  lemma {:induction false} SubstituteAppend(q1: string, q2: string, params: map<string, Value>, escape: Value -> string)
    requires StartsWithoutWordChar(q2)
    ensures Substitute(q1 + q2, params, escape)
         == Substitute(q1, params, escape) + Substitute(q2, params, escape)
    decreases |q1|, 1
  {
    if q1 == [] {
      assert q1 + q2 == q2;
    } else if TokenAtFront(q1) {
      AppendAfterToken(q1, q2, params, escape);
    } else {
      AppendAfterChar(q1, q2, params, escape);
    }
  }

  /** A query that starts with a token splits into `@`, the token's key and
      a rest that cannot extend the key. */
  lemma TokenParts(q: string) returns (key: string, rest: string)
    requires TokenAtFront(q)
    ensures IsWord(key) && StartsWithoutWordChar(rest)
    ensures q == "@" + key + rest && |rest| < |q|
    ensures key == q[1..1 + WordRun(q[1..])] && rest == q[1 + WordRun(q[1..])..]
  {
    var n := WordRun(q[1..]);
    key, rest := q[1..1 + n], q[1 + n..];
    TokenKeyIsWord(q);
    if rest != [] {
      assert rest[0] == q[1..][n];
    }
    assert q == "@" + key + rest;
  }

  /** A token at the front of `q1` is still the whole token at the front of
      `q1 + q2`. */
  lemma TokenBeforeAppend(key: string, rest: string, q2: string, params: map<string, Value>, escape: Value -> string)
    requires IsWord(key) && StartsWithoutWordChar(rest) && StartsWithoutWordChar(q2)
    ensures Substitute("@" + key + rest + q2, params, escape)
         == RenderToken(key, params, escape) + Substitute(rest + q2, params, escape)
  {
    var tail := rest + q2;
    assert StartsWithoutWordChar(tail) by {
      if rest != [] { assert tail[0] == rest[0]; }
    }
    assert "@" + key + rest + q2 == "@" + key + tail;
    SubstituteToken(key, tail, params, escape);
  }

  /** The token at the front of `q1`, rendered once in `q1` and once in
      `q1 + q2`, followed by what remains of each. */
  lemma TokenOfAppend(q1: string, q2: string, params: map<string, Value>, escape: Value -> string)
    returns (token: string, rest: string)
    requires StartsWithoutWordChar(q2) && TokenAtFront(q1)
    ensures |rest| < |q1|
    ensures Substitute(q1, params, escape) == token + Substitute(rest, params, escape)
    ensures Substitute(q1 + q2, params, escape) == token + Substitute(rest + q2, params, escape)
  {
    var key;
    key, rest := TokenParts(q1);
    token := RenderToken(key, params, escape);
    TokenBeforeAppend(key, rest, q2, params, escape);
    SubstituteToken(key, rest, params, escape);
  }

  lemma {:induction false} AppendAfterToken(q1: string, q2: string, params: map<string, Value>, escape: Value -> string)
    requires StartsWithoutWordChar(q2) && TokenAtFront(q1)
    ensures Substitute(q1 + q2, params, escape)
         == Substitute(q1, params, escape) + Substitute(q2, params, escape)
    decreases |q1|, 0
  {
    var token, rest := TokenOfAppend(q1, q2, params, escape);
    SubstituteAppend(rest, q2, params, escape);
    ConcatAssoc(token, Substitute(rest, params, escape), Substitute(q2, params, escape));
  }

  /** How `q1 + q2` starts when `q1` does not start with a token. */
  lemma CharOfAppend(q1: string, q2: string)
    requires StartsWithoutWordChar(q2) && q1 != [] && !TokenAtFront(q1)
    ensures q1 + q2 != [] && !TokenAtFront(q1 + q2)
    ensures (q1 + q2)[0] == q1[0] && (q1 + q2)[1..] == q1[1..] + q2
  {
    var q := q1 + q2;
    assert q[0] == q1[0];
    if |q1| == 1 {
      if |q2| > 0 { assert q[1] == q2[0]; }
    } else {
      assert q[1] == q1[1];
    }
    assert q[1..] == q1[1..] + q2;
  }

  lemma {:induction false} AppendAfterChar(q1: string, q2: string, params: map<string, Value>, escape: Value -> string)
    requires StartsWithoutWordChar(q2) && q1 != [] && !TokenAtFront(q1)
    ensures Substitute(q1 + q2, params, escape)
         == Substitute(q1, params, escape) + Substitute(q2, params, escape)
    decreases |q1|, 0
  {
    CharOfAppend(q1, q2);
    SubstituteCharStep(q1 + q2, params, escape);
    SubstituteCharStep(q1, params, escape);
    SubstituteAppend(q1[1..], q2, params, escape);
    ConcatAssoc([q1[0]], Substitute(q1[1..], params, escape), Substitute(q2, params, escape));
  }

  /** A token `@key` is replaced by its rendering, which is emitted as it is
      (never re-scanned), and scanning resumes right after the key: the bare
      key wins over `@key`, `@key` is the fallback, and an unknown token
      stays verbatim. */
  lemma {:induction false} SubstituteToken(key: string, rest: string, params: map<string, Value>, escape: Value -> string)
    requires IsWord(key) && StartsWithoutWordChar(rest)
    ensures Substitute("@" + key + rest, params, escape)
         == RenderToken(key, params, escape) + Substitute(rest, params, escape)
    ensures key in params ==>
      Substitute("@" + key + rest, params, escape) == escape(params[key]) + Substitute(rest, params, escape)
    ensures key !in params && "@" + key in params ==>
      Substitute("@" + key + rest, params, escape) == escape(params["@" + key]) + Substitute(rest, params, escape)
    ensures key !in params && "@" + key !in params ==>
      Substitute("@" + key + rest, params, escape) == "@" + key + Substitute(rest, params, escape)
  {
    var q := "@" + key + rest;
    assert q[0] == '@' && q[1] == key[0];
    assert TokenAtFront(q);
    assert q[1..] == key + rest;
    WordRunAppend(key, rest);
    assert WordRun(key) == |key|;
    assert q[1..1 + |key|] == key;
    assert q[1 + |key|..] == rest;
  }

  // ---------------------------------------------------------------------
  // Reference definition: a query as a sequence of segments

  /** A piece of a query: literal text, or a `@key` token. */
  datatype Segment = Text(text: string) | Placeholder(key: string)

  /** The query text of one segment. */
  function Spelling(seg: Segment): string {
    match seg
    case Text(t) => t
    case Placeholder(k) => "@" + k
  }

  /** The substituted text of one segment: text as it is, a placeholder rendered. */
  function Rendering(seg: Segment, params: map<string, Value>, escape: Value -> string): string {
    match seg
    case Text(t) => t
    case Placeholder(k) => RenderToken(k, params, escape)
  }

  /** The query text a sequence of segments spells. */
  function Unparse(segs: seq<Segment>): (q: string)
    ensures segs == [] ==> q == []
  {
    if segs == [] then [] else Spelling(segs[0]) + Unparse(segs[1..])
  }

  /** The substituted text of a sequence of segments, each rendered on its own. */
  function RenderAll(segs: seq<Segment>, params: map<string, Value>, escape: Value -> string): (sql: string)
    ensures segs == [] ==> sql == []
  {
    if segs == [] then [] else Rendering(segs[0], params, escape) + RenderAll(segs[1..], params, escape)
  }

  /** A segment as it may appear in a canonical segmentation: a placeholder's
      key is a whole word, a text is non-empty and holds no token. */
  predicate WellFormed(seg: Segment) {
    match seg
    case Text(t) => t != [] && NoTokens(t)
    case Placeholder(k) => IsWord(k)
  }

  /** A segmentation in which every placeholder is a maximal `@\w+` token and
      no text holds a token: no two texts are adjacent, and the text after a
      placeholder does not start with a word character. */
  predicate Canonical(segs: seq<Segment>) {
    && (forall i :: 0 <= i < |segs| ==> WellFormed(segs[i]))
    && (forall i :: 0 < i < |segs| && segs[i].Text? ==> segs[i - 1].Placeholder? && !IsWordChar(segs[i].text[0]))
  }

  lemma CanonicalTail(segs: seq<Segment>)
    requires Canonical(segs) && segs != []
    ensures Canonical(segs[1..])
  {
    var tail := segs[1..];
    forall i | 0 < i < |tail| && tail[i].Text?
      ensures tail[i - 1].Placeholder? && !IsWordChar(tail[i].text[0])
    {
      assert tail[i] == segs[i + 1] && tail[i - 1] == segs[i];
    }
  }

  lemma CanonicalCons(seg: Segment, tail: seq<Segment>)
    requires WellFormed(seg) && Canonical(tail)
    requires tail != [] && tail[0].Text? ==> seg.Placeholder? && !IsWordChar(tail[0].text[0])
    ensures Canonical([seg] + tail)
  {
    var segs := [seg] + tail;
    forall i | 0 < i < |segs| && segs[i].Text?
      ensures segs[i - 1].Placeholder? && !IsWordChar(segs[i].text[0])
    {
      assert segs[i] == tail[i - 1];
      if i > 1 { assert segs[i - 1] == tail[i - 2]; }
    }
    forall i | 0 <= i < |segs| ensures WellFormed(segs[i]) {
      if i > 0 { assert segs[i] == tail[i - 1]; }
    }
  }

  /** What follows the first segment of a canonical segmentation cannot
      extend a token. */
  lemma CanonicalRestStarts(segs: seq<Segment>)
    requires Canonical(segs) && segs != []
    ensures StartsWithoutWordChar(Unparse(segs[1..]))
  {
    var tail := segs[1..];
    if tail != [] {
      assert tail[0] == segs[1];
      assert Unparse(tail) == Spelling(tail[0]) + Unparse(tail[1..]);
      assert Unparse(tail)[0] == Spelling(tail[0])[0];
    }
  }

  /** Substitution of a query is the rendering of any canonical segmentation
      of it: texts are copied, each token is rendered on its own, and no
      rendering is scanned again. */
  lemma {:induction false} SubstituteRendersSegments(segs: seq<Segment>, params: map<string, Value>, escape: Value -> string)
    requires Canonical(segs)
    ensures Substitute(Unparse(segs), params, escape) == RenderAll(segs, params, escape)
    decreases |segs|
  {
    if segs != [] {
      CanonicalTail(segs);
      CanonicalRestStarts(segs);
      var rest := Unparse(segs[1..]);
      SubstituteRendersSegments(segs[1..], params, escape);
      assert WellFormed(segs[0]);
      match segs[0]
      case Text(t) =>
        SubstituteAppend(t, rest, params, escape);
        SubstituteNoTokens(t, params, escape);
      case Placeholder(k) =>
        SubstituteToken(k, rest, params, escape);
    }
  }

  /** Splits a query into its canonical segmentation. */
  function Tokenize(q: string): (segs: seq<Segment>)
    decreases |q|
  {
    if q == [] then []
    else if TokenAtFront(q) then
      var n := WordRun(q[1..]);
      [Placeholder(q[1..1 + n])] + Tokenize(q[1 + n..])
    else
      var tail := Tokenize(q[1..]);
      if tail != [] && tail[0].Text? then [Text([q[0]] + tail[0].text)] + tail[1..]
      else [Text([q[0]])] + tail
  }

  lemma UnparseCons(seg: Segment, tail: seq<Segment>)
    ensures Unparse([seg] + tail) == Spelling(seg) + Unparse(tail)
  {
    assert ([seg] + tail)[1..] == tail;
  }

  /** Tokenize neither loses nor adds text. */
  lemma {:induction false} TokenizeUnparse(q: string)
    ensures Unparse(Tokenize(q)) == q
    decreases |q|, 1
  {
    if q == [] {
    } else if TokenAtFront(q) {
      UnparseAfterToken(q);
    } else {
      UnparseAfterChar(q);
    }
  }

  lemma TokenizeTokenStep(q: string)
    requires TokenAtFront(q)
    ensures 1 + WordRun(q[1..]) <= |q|
    ensures Tokenize(q) == [Placeholder(q[1..1 + WordRun(q[1..])])] + Tokenize(q[1 + WordRun(q[1..])..])
  {
  }

  lemma {:induction false} UnparseAfterToken(q: string)
    requires TokenAtFront(q)
    ensures Unparse(Tokenize(q)) == q
    decreases |q|, 0
  {
    var key, rest := TokenParts(q);
    TokenizeTokenStep(q);
    TokenizeUnparse(rest);
    UnparseCons(Placeholder(key), Tokenize(rest));
  }

  lemma {:induction false} UnparseAfterChar(q: string)
    requires q != [] && !TokenAtFront(q)
    ensures Unparse(Tokenize(q)) == q
    decreases |q|, 0
  {
    var tail := Tokenize(q[1..]);
    TokenizeUnparse(q[1..]);
    assert [q[0]] + q[1..] == q;
    if tail != [] && tail[0].Text? {
      assert Tokenize(q) == [Text([q[0]] + tail[0].text)] + tail[1..];
      UnparseCons(Text([q[0]] + tail[0].text), tail[1..]);
      assert Unparse(tail) == tail[0].text + Unparse(tail[1..]);
    } else {
      assert Tokenize(q) == [Text([q[0]])] + tail;
      UnparseCons(Text([q[0]]), tail);
    }
  }

  /** The first segment Tokenize produces spells the start of the query. */
  lemma TokenizeHead(q: string)
    requires q != []
    ensures Tokenize(q) != [] && Spelling(Tokenize(q)[0]) != [] && Spelling(Tokenize(q)[0])[0] == q[0]
  {
  }

  lemma TokenKeyIsWord(q: string)
    requires TokenAtFront(q)
    ensures IsWord(q[1..1 + WordRun(q[1..])])
  {
    var n := WordRun(q[1..]);
    var key := q[1..1 + n];
    forall i | 0 <= i < |key| ensures IsWordChar(key[i]) {
      assert key[i] == q[1..][i];
    }
  }

  lemma MergedTextHasNoTokens(c: char, t: string, rest: string)
    requires |rest| >= 1 && !(c == '@' && IsWordChar(rest[0]))
    requires NoTokens(t) && t != [] && t[0] == rest[0]
    ensures NoTokens([c] + t)
  {
    var m := [c] + t;
    forall i | 0 <= i < |m| - 1 ensures !(m[i] == '@' && IsWordChar(m[i + 1])) {
      if i == 0 {
        assert m[1] == t[0];
      } else {
        assert m[i] == t[i - 1] && m[i + 1] == t[i];
      }
    }
  }

  lemma SingleCharHasNoTokens(c: char)
    ensures NoTokens([c])
  {
  }

  /** Tokenize produces a canonical segmentation. */
  lemma {:induction false} TokenizeCanonical(q: string)
    ensures Canonical(Tokenize(q))
    decreases |q|
  {
    if q == [] {
    } else if TokenAtFront(q) {
      var n := WordRun(q[1..]);
      var rest := q[1 + n..];
      TokenizeCanonical(rest);
      TokenKeyIsWord(q);
      var tail := Tokenize(rest);
      if tail != [] && tail[0].Text? {
        TokenizeHead(rest);
        assert rest[0] == q[1..][n];
      }
      CanonicalCons(Placeholder(q[1..1 + n]), tail);
    } else {
      TokenizeCanonical(q[1..]);
      var tail := Tokenize(q[1..]);
      if tail != [] && tail[0].Text? {
        TokenizeHead(q[1..]);
        assert q[1..][0] == q[1];
        MergedTextHasNoTokens(q[0], tail[0].text, q[1..]);
        CanonicalTail(tail);
        if |tail| > 1 { assert tail[1].Placeholder?; }
        CanonicalCons(Text([q[0]] + tail[0].text), tail[1..]);
      } else {
        SingleCharHasNoTokens(q[0]);
        CanonicalCons(Text([q[0]]), tail);
      }
    }
  }

  /** The substituted query, described without the scanner: split the query
      into its segments and render each one. */
  lemma PrepareQueryBySegments(query: string, props: map<string, Value>, escape: Value -> string)
    ensures Unparse(Tokenize(query)) == query
    ensures PrepareQuery(query, Obj(props), escape) == RenderAll(Tokenize(query), props, escape)
  {
    TokenizeUnparse(query);
    TokenizeCanonical(query);
    SubstituteRendersSegments(Tokenize(query), props, escape);
  }

  // ---------------------------------------------------------------------
  // Worked cases

  /** Text followed by one token at the end of the query. */
  lemma TextThenToken(text: string, key: string, params: map<string, Value>, escape: Value -> string)
    requires NoTokens(text) && IsWord(key)
    ensures Substitute(text + ("@" + key), params, escape) == text + RenderToken(key, params, escape)
  {
    SubstituteAppend(text, "@" + key, params, escape);
    SubstituteNoTokens(text, params, escape);
    assert "@" + key + "" == "@" + key;
    SubstituteToken(key, "", params, escape);
  }

  lemma SelectPrefixHasNoTokens()
    ensures NoTokens("SELECT * FROM t WHERE id=")
  {
  }

  /** `SELECT * FROM t WHERE id=@id` under any mapping: the text before the
      token is copied and the token rendered. */
  lemma SelectById(params: map<string, Value>, escape: Value -> string)
    ensures Substitute("SELECT * FROM t WHERE id=@id", params, escape)
         == "SELECT * FROM t WHERE id=" + RenderToken("id", params, escape)
  {
    SelectPrefixHasNoTokens();
    assert IsWord("id");
    TextThenToken("SELECT * FROM t WHERE id=", "id", params, escape);
    assert "SELECT * FROM t WHERE id=" + ("@" + "id") == "SELECT * FROM t WHERE id=@id";
  }

  /** `SELECT * FROM t WHERE id=@id` with `{id: 5}` and with `{"@id": 5}`
      gives the same statement; with neither key the token stays. */
  lemma LookupExamples(escape: Value -> string)
    ensures PrepareQuery("SELECT * FROM t WHERE id=@id", Obj(map["id" := Num(5.0)]), escape)
         == "SELECT * FROM t WHERE id=" + escape(Num(5.0))
    ensures PrepareQuery("SELECT * FROM t WHERE id=@id", Obj(map["@id" := Num(5.0)]), escape)
         == "SELECT * FROM t WHERE id=" + escape(Num(5.0))
    ensures PrepareQuery("SELECT * FROM t WHERE id=@id", Obj(map["name" := Str("x")]), escape)
         == "SELECT * FROM t WHERE id=@id"
  {
    SelectById(map["id" := Num(5.0)], escape);
    SelectById(map["@id" := Num(5.0)], escape);
    SelectById(map["name" := Str("x")], escape);
    assert "@" + "id" == "@id";
    assert "SELECT * FROM t WHERE id=" + "@id" == "SELECT * FROM t WHERE id=@id";
  }

  /** A replacement that itself looks like a token is emitted as it is: `@a`
      becomes the escaped value of `a` even when that text reads `@b` and
      `b` is a parameter too. */
  lemma ReplacementNotRescanned()
    ensures PrepareQuery("@a", Obj(map["a" := Num(1.0), "b" := Num(2.0)]),
                         (v: Value) => if v == Num(1.0) then "@b" else "2")
         == "@b"
  {
    var escape := (v: Value) => if v == Num(1.0) then "@b" else "2";
    var m := map["a" := Num(1.0), "b" := Num(2.0)];
    assert "@" + "a" + "" == "@a";
    assert IsWord("a");
    SubstituteToken("a", "", m, escape);
  }
}
