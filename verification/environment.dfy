/** `update_from_environment`: `CONFIG_*` variables become properties. The
    name after the prefix goes through two regular-expression substitutions,
    each scanning left to right without overlapping matches, exactly as
    Python's `re.sub` does. */
module Environment {
  import opened Wrappers
  import opened Json
  import opened Dicts
  import opened ConfigStore
  import Strings
  import Scalar

  const Prefix := "CONFIG_"

  /** `sub("([^_])_([^_])", r"\1.\2", s)`: a match consumes three characters,
      so the right-hand character of one match cannot start the next. */
  function DotPass(s: string): (r: string)
    ensures |r| == |s|
    decreases |s|
  {
    if |s| >= 3 && s[0] != '_' && s[1] == '_' && s[2] != '_' then [s[0], '.', s[2]] + DotPass(s[3..])
    else if |s| == 0 then []
    else [s[0]] + DotPass(s[1..])
  }

  /** `sub("__", "_", s)`: each pair of underscores, taken left to right,
      becomes one. */
  function UnderscorePass(s: string): (r: string)
    ensures |r| <= |s|
    decreases |s|
  {
    if |s| >= 2 && s[0] == '_' && s[1] == '_' then "_" + UnderscorePass(s[2..])
    else if |s| == 0 then []
    else [s[0]] + UnderscorePass(s[1..])
  }

  /** Both substitutions, applied to the name after the prefix. */
  function DecodeName(rest: string): string {
    UnderscorePass(DotPass(rest))
  }

  /** The property a variable sets, or `None` when its name lacks the prefix. */
  function PropertyName(name: string): (r: Option<string>)
    ensures r.Some? <==> Strings.HasPrefix(name, Prefix)
    ensures r.Some? ==> |r.value| <= |name| - |Prefix|
  {
    if Strings.HasPrefix(name, Prefix) then Some(DecodeName(name[|Prefix|..]))
    else None
  }

  predicate NoUnderscore(w: string) {
    forall i | 0 <= i < |w| :: w[i] != '_'
  }

  /** The first pass only ever turns an underscore into a dot, and only one
      that has a non-underscore on each side. */
  lemma {:induction false} DotPassChanges(s: string)
    ensures forall i | 0 <= i < |s| ::
      || DotPass(s)[i] == s[i]
      || (s[i] == '_' && DotPass(s)[i] == '.' && 0 < i < |s| - 1 && s[i - 1] != '_' && s[i + 1] != '_')
    decreases |s|
  {
    if |s| >= 3 && s[0] != '_' && s[1] == '_' && s[2] != '_' {
      DotPassChanges(s[3..]);
      assert forall i | 3 <= i < |s| :: DotPass(s)[i] == DotPass(s[3..])[i - 3] && s[3..][i - 3] == s[i];
    } else if |s| > 0 {
      DotPassChanges(s[1..]);
      assert forall i | 1 <= i < |s| :: DotPass(s)[i] == DotPass(s[1..])[i - 1] && s[1..][i - 1] == s[i];
    }
  }

  /** Text without a doubled underscore passes the second pass unchanged. */
  lemma {:induction false} UnderscorePassKeeps(s: string)
    requires forall i | 0 <= i < |s| - 1 :: s[i] != '_' || s[i + 1] != '_'
    ensures UnderscorePass(s) == s
    decreases |s|
  {
    if |s| > 0 {
      assert forall i | 0 <= i < |s| - 2 :: s[1..][i] == s[i + 1];
      UnderscorePassKeeps(s[1..]);
      assert s == [s[0]] + s[1..];
    }
  }

  lemma PrefixedName(rest: string)
    ensures PropertyName(Prefix + rest) == Some(DecodeName(rest))
  {
    assert (Prefix + rest)[..|Prefix|] == Prefix;
    assert (Prefix + rest)[|Prefix|..] == rest;
  }

  /** The character escape of the docstring's naming rule. */
  function NameEscapeChar(c: char): string {
    if c == '.' then "_" else if c == '_' then "__" else [c]
  }

  /** The naming rule of the docstring: "." written as "_" and "_" as "__". */
  function EscapeName(p: string): string {
    if |p| == 0 then "" else NameEscapeChar(p[0]) + EscapeName(p[1..])
  }

  function EnvVarName(p: string): string {
    Prefix + EscapeName(p)
  }

  /** `p` with each underscore doubled and everything else kept. */
  function DoubleUnderscores(p: string): string {
    if |p| == 0 then "" else (if p[0] == '_' then "__" else [p[0]]) + DoubleUnderscores(p[1..])
  }

  /** A segment character: neither a separator nor an underscore. */
  predicate Plain(c: char) {
    c != '.' && c != '_'
  }

  /** Property names the naming rule can round-trip: every dot sits between
      two plain characters, and no two dots are one character apart (a
      one-character segment between dots is what the left-to-right scan
      cannot split). */
  predicate EnvSafe(p: string) {
    forall i | 0 <= i < |p| && p[i] == '.' ::
      && 0 < i < |p| - 1
      && Plain(p[i - 1]) && Plain(p[i + 1])
      && (i + 2 < |p| ==> p[i + 2] != '.')
  }

  lemma EnvSafeTail(p: string, n: nat)
    requires EnvSafe(p) && n <= |p|
    requires n < |p| ==> p[n] != '.'
    ensures EnvSafe(p[n..])
  {
    forall i | 0 <= i < |p[n..]| && p[n..][i] == '.'
      ensures 0 < i < |p[n..]| - 1 && Plain(p[n..][i - 1]) && Plain(p[n..][i + 1])
      ensures i + 2 < |p[n..]| ==> p[n..][i + 2] != '.'
    {
      assert p[n + i] == '.';
    }
  }

  /** Regrouping a concatenation; stated apart so that no pass is in scope. */
  lemma Regroup(a: string, b: string, c: string, x: string)
    ensures a + (b + (c + x)) == (a + b + c) + x
  {
  }

  lemma SplitFirst(w: string, x: string)
    requires |w| > 0
    ensures w + x == [w[0]] + (w[1..] + x)
    ensures (w + x)[1..] == w[1..] + x
    ensures |w| > 1 ==> (w[1..] + x)[0] == w[1]
  {
    assert w == [w[0]] + w[1..];
  }

  lemma NoUnderscoreTail(w: string)
    requires |w| > 0 && NoUnderscore(w)
    ensures w[0] != '_' && NoUnderscore(w[1..])
  {
    assert forall i | 0 <= i < |w| - 1 :: w[1..][i] == w[i + 1];
  }

  lemma NoUnderscoreJoin(a: string, b: string)
    requires NoUnderscore(a) && NoUnderscore(b)
    ensures NoUnderscore(a + b)
  {
    assert forall i | 0 <= i < |a + b| :: (a + b)[i] == if i < |a| then a[i] else b[i - |a|];
  }

  /** A character not followed by a lone underscore is copied by the scan. */
  lemma DotPassKeep(c: char, s: string)
    requires !(|s| >= 2 && c != '_' && s[0] == '_' && s[1] != '_')
    ensures DotPass([c] + s) == [c] + DotPass(s)
  {
    assert ([c] + s)[1..] == s;
  }

  /** A lone underscore between two non-underscores becomes a dot, and the
      scan resumes after the right-hand character. */
  lemma DotPassMatch(c: char, d: char, s: string)
    requires c != '_' && d != '_'
    ensures DotPass([c] + ("_" + ([d] + s))) == [c] + ("." + ([d] + DotPass(s)))
  {
    var t := [c] + ("_" + ([d] + s));
    assert t[0] == c && t[1] == '_' && t[2] == d;
    assert t[3..] == s;
    Regroup([c], ".", [d], DotPass(s));
  }

  /** A word without underscores followed by `_x` is copied with the
      underscore turned into a dot. */
  lemma {:induction false} DotPassWord(w: string, d: char, s: string)
    requires |w| > 0 && NoUnderscore(w) && d != '_'
    ensures DotPass(w + ("_" + ([d] + s))) == w + ("." + ([d] + DotPass(s)))
    decreases |w|
  {
    NoUnderscoreTail(w);
    if |w| == 1 {
      assert w == [w[0]];
      DotPassMatch(w[0], d, s);
    } else {
      var t := w[1..] + ("_" + ([d] + s));
      SplitFirst(w, "_" + ([d] + s));
      DotPassKeep(w[0], t);
      DotPassWord(w[1..], d, s);
      SplitFirst(w, "." + ([d] + DotPass(s)));
    }
  }

  /** Two underscores are copied by the scan. */
  lemma DotPassUnderscores(s: string)
    ensures DotPass("__" + s) == "__" + DotPass(s)
  {
    assert "__" + s == ['_'] + (['_'] + s);
    DotPassKeep('_', ['_'] + s);
    DotPassKeep('_', s);
    assert ['_'] + (['_'] + DotPass(s)) == "__" + DotPass(s);
  }

  /** A word without underscores followed by `__` is copied unchanged. */
  lemma {:induction false} DotPassPair(w: string, s: string)
    requires NoUnderscore(w)
    ensures DotPass(w + ("__" + s)) == w + ("__" + DotPass(s))
    decreases |w|
  {
    if |w| == 0 {
      assert w + ("__" + s) == "__" + s;
      DotPassUnderscores(s);
      assert w + ("__" + DotPass(s)) == "__" + DotPass(s);
    } else {
      NoUnderscoreTail(w);
      var t := w[1..] + ("__" + s);
      SplitFirst(w, "__" + s);
      assert |w| == 1 ==> t == "__" + s;
      DotPassKeep(w[0], t);
      DotPassPair(w[1..], s);
      SplitFirst(w, "__" + DotPass(s));
    }
  }

  lemma DotPassPlain(w: string)
    requires NoUnderscore(w)
    ensures DotPass(w) == w
  {
    DotPassChanges(w);
  }

  lemma {:induction false} UnderscorePassPlain(w: string, s: string)
    requires NoUnderscore(w)
    ensures UnderscorePass(w + s) == w + UnderscorePass(s)
    decreases |w|
  {
    if |w| > 0 {
      NoUnderscoreTail(w);
      SplitFirst(w, s);
      UnderscorePassPlain(w[1..], s);
      SplitFirst(w, UnderscorePass(s));
    } else {
      assert w + s == s;
      assert w + UnderscorePass(s) == UnderscorePass(s);
    }
  }

  lemma UnderscorePassPair(s: string)
    ensures UnderscorePass("__" + s) == "_" + UnderscorePass(s)
  {
    assert ("__" + s)[2..] == s;
  }

  /** The naming rule and the doubling, one character at a time. */
  lemma EscapeCons(c: char, x: string)
    ensures EscapeName([c] + x) == NameEscapeChar(c) + EscapeName(x)
    ensures DoubleUnderscores([c] + x) == (if c == '_' then "__" else [c]) + DoubleUnderscores(x)
  {
    assert ([c] + x)[1..] == x;
  }

  lemma EscapedUnderscore(x: string)
    ensures DotPass(EscapeName(['_'] + x)) == "__" + DotPass(EscapeName(x))
    ensures DoubleUnderscores(['_'] + x) == "__" + DoubleUnderscores(x)
  {
    EscapeCons('_', x);
    DotPassUnderscores(EscapeName(x));
  }

  lemma EscapedDot(c: char, d: char, tail: string)
    requires Plain(c) && Plain(d)
    ensures DotPass(EscapeName([c] + (['.'] + ([d] + tail)))) == [c] + ("." + ([d] + DotPass(EscapeName(tail))))
    ensures DoubleUnderscores([c] + (['.'] + ([d] + tail))) == [c] + ("." + ([d] + DoubleUnderscores(tail)))
  {
    EscapeCons(d, tail);
    EscapeCons('.', [d] + tail);
    EscapeCons(c, ['.'] + ([d] + tail));
    DotPassMatch(c, d, EscapeName(tail));
  }

  /** Unless the name starts with a dot, its escaped form does not start
      with a lone underscore. */
  lemma EscapedHead(x: string)
    requires |x| == 0 || x[0] != '.'
    ensures var s := EscapeName(x); !(|s| >= 2 && s[0] == '_' && s[1] != '_')
  {
    if |x| > 0 {
      assert x == [x[0]] + x[1..];
      EscapeCons(x[0], x[1..]);
    }
  }

  lemma EscapedPlain(c: char, x: string)
    requires Plain(c) && (|x| == 0 || x[0] != '.')
    ensures DotPass(EscapeName([c] + x)) == [c] + DotPass(EscapeName(x))
    ensures DoubleUnderscores([c] + x) == [c] + DoubleUnderscores(x)
  {
    EscapeCons(c, x);
    EscapedHead(x);
    DotPassKeep(c, EscapeName(x));
  }

  lemma {:induction false} DotPassEscaped(p: string)
    requires EnvSafe(p)
    ensures DotPass(EscapeName(p)) == DoubleUnderscores(p)
    decreases |p|
  {
    if |p| > 0 {
      if p[0] == '_' {
        EnvSafeTail(p, 1);
        assert p == ['_'] + p[1..];
        EscapedUnderscore(p[1..]);
        DotPassEscaped(p[1..]);
      } else if |p| > 1 && p[1] == '.' {
        EnvSafeTail(p, 3);
        assert p == [p[0]] + (['.'] + ([p[2]] + p[3..]));
        EscapedDot(p[0], p[2], p[3..]);
        DotPassEscaped(p[3..]);
      } else {
        EnvSafeTail(p, 1);
        assert p == [p[0]] + p[1..];
        EscapedPlain(p[0], p[1..]);
        DotPassEscaped(p[1..]);
      }
    }
  }

  lemma {:induction false} UnderscorePassDoubled(p: string)
    ensures UnderscorePass(DoubleUnderscores(p)) == p
    decreases |p|
  {
    if |p| > 0 {
      assert p == [p[0]] + p[1..];
      EscapeCons(p[0], p[1..]);
      UnderscorePassDoubled(p[1..]);
      if p[0] == '_' {
        UnderscorePassPair(DoubleUnderscores(p[1..]));
      } else {
        assert ([p[0]] + DoubleUnderscores(p[1..]))[1..] == DoubleUnderscores(p[1..]);
      }
    }
  }

  /** A property named by the documented rule reads back as itself. */
  lemma NameRoundTrip(p: string)
    requires EnvSafe(p)
    ensures PropertyName(EnvVarName(p)) == Some(p)
  {
    PrefixedName(EscapeName(p));
    DotPassEscaped(p);
    UnderscorePassDoubled(p);
  }

  /** Decoding a word without underscores followed by `_x`. */
  lemma DecodeWord(w: string, d: char, s: string)
    requires |w| > 0 && NoUnderscore(w) && d != '_'
    ensures DecodeName(w + ("_" + ([d] + s))) == w + ("." + ([d] + DecodeName(s)))
  {
    DotPassWord(w, d, s);
    var head := w + "." + [d];
    NoUnderscoreJoin(w, ".");
    NoUnderscoreJoin(w + ".", [d]);
    Regroup(w, ".", [d], DotPass(s));
    UnderscorePassPlain(head, DotPass(s));
    Regroup(w, ".", [d], DecodeName(s));
  }

  /** Decoding a word without underscores followed by `__`. */
  lemma DecodePair(w: string, s: string)
    requires NoUnderscore(w)
    ensures DecodeName(w + ("__" + s)) == w + ("_" + DecodeName(s))
  {
    DotPassPair(w, s);
    UnderscorePassPlain(w, "__" + DotPass(s));
    UnderscorePassPair(DotPass(s));
  }

  lemma DecodePlain(w: string)
    requires NoUnderscore(w)
    ensures DecodeName(w) == w
  {
    DotPassPlain(w);
    UnderscorePassPlain(w, "");
    assert w + "" == w;
  }

  lemma DataDirDecoded()
    ensures DecodeName("omero" + ("_" + (['d'] + ("ata" + ("_" + (['d'] + "ir"))))))
         == "omero" + ("." + (['d'] + ("ata" + ("." + (['d'] + "ir")))))
  {
    DecodeWord("omero", 'd', "ata" + ("_" + (['d'] + "ir")));
    DecodeWord("ata", 'd', "ir");
    DecodePlain("ir");
  }

  /** The first name of the test. */
  lemma DataDirName()
    ensures PropertyName(Prefix + "omero_data_dir") == Some("omero.data.dir")
  {
    var name := "omero" + ("_" + (['d'] + ("ata" + ("_" + (['d'] + "ir")))));
    assert "omero_data_dir" == name;
    assert "omero" + ("." + (['d'] + ("ata" + ("." + (['d'] + "ir"))))) == "omero.data.dir";
    PrefixedName(name);
    DataDirDecoded();
  }

  lemma UrlFilterTail()
    ensures DecodeName("ublic" + ("_" + (['u'] + ("rl" + ("__" + "filter")))))
         == "ublic" + ("." + (['u'] + ("rl" + ("_" + "filter"))))
  {
    DecodeWord("ublic", 'u', "rl" + ("__" + "filter"));
    DecodePair("rl", "filter");
    DecodePlain("filter");
  }

  lemma UrlFilterDecoded()
    ensures DecodeName("omero" + ("_" + (['w'] + ("eb" + ("_" + (['p'] + "ublic_url__filter"))))))
         == "omero" + ("." + (['w'] + ("eb" + ("." + (['p'] + "ublic.url_filter")))))
  {
    assert "ublic_url__filter" == "ublic" + ("_" + (['u'] + ("rl" + ("__" + "filter"))));
    assert "ublic.url_filter" == "ublic" + ("." + (['u'] + ("rl" + ("_" + "filter"))));
    DecodeWord("omero", 'w', "eb" + ("_" + (['p'] + "ublic_url__filter")));
    DecodeWord("eb", 'p', "ublic_url__filter");
    UrlFilterTail();
  }

  lemma UrlFilterPieces(n: string)
    requires n == "omero" + ("_" + (['w'] + ("eb" + ("_" + (['p'] + "ublic_url__filter")))))
    ensures PropertyName(Prefix + n) == Some("omero.web.public.url_filter")
  {
    assert "omero" + ("." + (['w'] + ("eb" + ("." + (['p'] + "ublic.url_filter"))))) == "omero.web.public.url_filter";
    PrefixedName(n);
    UrlFilterDecoded();
  }

  /** The second name of the test and of the docstring: a doubled
      underscore stands for one. */
  lemma UrlFilterName()
    ensures PropertyName(Prefix + "omero_web_public_url__filter") == Some("omero.web.public.url_filter")
  {
    UrlFilterPieces("omero_web_public_url__filter");
  }

  /** A one-character segment: the scan consumes `b` in its first match, so
      the second underscore survives, and the documented rule does not
      invert for `a.b.c`. */
  lemma OneCharacterSegment()
    ensures EscapeName("a.b.c") == "a_b_c"
    ensures PropertyName(Prefix + "a_b_c") == Some("a.b_c")
  {
    assert "a_b_c" == ['a'] + ("_" + (['b'] + ("_" + "c")));
    assert "a.b_c" == ['a', '.', 'b'] + ("_" + "c");
    PrefixedName(['a'] + ("_" + (['b'] + ("_" + "c"))));
    DotPassMatch('a', 'b', "_" + "c");
    assert "_" + "c" == ['_'] + "c";
    DotPassKeep('_', "c");
    DotPassPlain("c");
    UnderscorePassPlain(['a', '.', 'b'], "_" + "c");
    UnderscorePassKeeps("_" + "c");
  }

  /** A dot beside an underscore: `a._b` is written `a___b`, whose first
      two underscores the second pass reads as one, so the name comes back
      as `a__b`. */
  lemma DotBesideUnderscore()
    ensures EscapeName("a._b") == "a___b"
    ensures PropertyName(Prefix + "a___b") == Some("a__b")
  {
    assert EscapeName("b") == "b";
    assert EscapeName("_b") == "__" + "b";
    assert EscapeName("._b") == "_" + ("__" + "b");
    assert EscapeName("a._b") == "a" + ("_" + ("__" + "b"));
    PrefixedName("a___b");
    var tail := "_b";
    assert DotPass(tail) == tail;
    assert DotPass("__b") == ['_'] + tail;
    assert DotPass("___b") == ['_'] + ("__b");
    assert DotPass("a___b") == "a___b";
    assert UnderscorePass(tail) == tail;
    assert UnderscorePass("___b") == "_" + tail;
    assert UnderscorePass("a___b") == ['a'] + ("_" + tail);
    assert ['a'] + ("_" + tail) == "a__b";
    assert DecodeName("a___b") == "a__b";
  }

  /** The reference meaning of the environment: the value of the last
      variable that names property `p`. */
  function EnvLookup(env: seq<(string, string)>, p: string): Option<string>
    decreases |env|
  {
    if |env| == 0 then None
    else if PropertyName(env[|env| - 1].0) == Some(p) then Some(env[|env| - 1].1)
    else EnvLookup(env[..|env| - 1], p)
  }

  /** Lines 152-158: the dictionary `cfg` built from the variables in order. */
  function Collect(env: seq<(string, string)>): (r: Dict<string>)
    ensures DistinctKeys(r)
    ensures forall p :: Lookup(r, p) == EnvLookup(env, p)
    decreases |env|
  {
    if |env| == 0 then []
    else
      var cfg := Collect(env[..|env| - 1]);
      var (k, v) := env[|env| - 1];
      match PropertyName(k)
      case Some(p) => Put(cfg, p, v)
      case None => cfg
  }

  function AsValue(v: string): Json {
    JString(v)
  }

  /** `update_from_environment`: each property named by some variable takes
      the value of the last such variable; every other property is kept. */
  function UpdateFromEnvironment(store: Store, env: seq<(string, string)>): (r: Store)
    ensures forall p | EnvLookup(env, p).Some? :: p in r && r[p] == EnvLookup(env, p).value
    ensures forall p | EnvLookup(env, p).None? :: (p in r <==> p in store) && (p in store ==> r[p] == store[p])
  {
    var cfg := MapValues(Collect(env), AsValue);
    var r := Scalar.UpdateFromDict(store, cfg);
    assert forall p | EnvLookup(env, p).Some? :: Lookup(cfg, p) == Some(JString(EnvLookup(env, p).value));
    r
  }
}
