/**
 * The banner iteration gallery (scripts/iterate-banner-3d.mjs): HTML
 * escaping of the page's text, the parameter variants, the missing-key
 * sentinel of the brightness score, and the ranking of the scored
 * variants (an in-place stable sort by descending score, then the best
 * pick and the page's first-maximum `reduce`).
 */
module Gallery {
  import opened Wrappers
  import opened Text
  import opened StableSort

  // ---------------------------------------------------------------------
  // escapeHtml
  // ---------------------------------------------------------------------

  /** The five characters `escapeHtml` rewrites. */
  predicate Special(c: char)
  {
    c == '&' || c == '<' || c == '>' || c == '"' || c == '\''
  }

  /** The entity that stands for a special character; other characters stand for themselves. */
  function EntityOf(c: char): (e: string)
    ensures Special(c) ==> |e| >= 4 && e[0] == '&' && '&' !in e[1..]
    ensures !Special(c) ==> e == [c]
  {
    if c == '&' then "&amp;"
    else if c == '<' then "&lt;"
    else if c == '>' then "&gt;"
    else if c == '"' then "&quot;"
    else if c == '\'' then "&#39;"
    else [c]
  }

  /** Entities of different characters differ in their second character. */
  lemma EntitiesDiffer(c: char, d: char)
    requires Special(c) && Special(d) && c != d
    ensures EntityOf(c)[1] != EntityOf(d)[1]
  {
  }

  /**
   * `escapeHtml(s)`: `&` first, then `<`, `>`, `"` and `'`, each by a
   * `replaceAll` over the whole text.
   */
  function EscapeHtml(s: string): (r: string)
    ensures '<' !in r && '>' !in r && '"' !in r && '\'' !in r
    ensures (forall i :: 0 <= i < |s| ==> !Special(s[i])) ==> r == s
  {
    var s1 := ReplaceChar(s, '&', "&amp;");
    var s2 := ReplaceChar(s1, '<', "&lt;");
    var s3 := ReplaceChar(s2, '>', "&gt;");
    var s4 := ReplaceChar(s3, '"', "&quot;");
    var r := ReplaceChar(s4, '\'', "&#39;");
    LtGone(s1, s2);
    GtGone(s2, s3);
    QuoteGone(s3, s4);
    AposGone(s4, r);
    if forall i :: 0 <= i < |s| ==> !Special(s[i]) then
      ReplaceCharAbsent(s, '&', "&amp;");
      ReplaceCharAbsent(s, '<', "&lt;");
      ReplaceCharAbsent(s, '>', "&gt;");
      ReplaceCharAbsent(s, '"', "&quot;");
      ReplaceCharAbsent(s, '\'', "&#39;");
      r
    else r
  }

  /*
   * Each replacement after the one for `&` removes its character and
   * inserts none of those already removed.
   */

  lemma LtGone(s1: string, s2: string)
    requires s2 == ReplaceChar(s1, '<', "&lt;")
    ensures '<' !in s2
  {
  }

  lemma GtGone(s2: string, s3: string)
    requires '<' !in s2 && s3 == ReplaceChar(s2, '>', "&gt;")
    ensures '<' !in s3 && '>' !in s3
  {
  }

  lemma QuoteGone(s3: string, s4: string)
    requires '<' !in s3 && '>' !in s3 && s4 == ReplaceChar(s3, '"', "&quot;")
    ensures '<' !in s4 && '>' !in s4 && '"' !in s4
  {
    var rep := "&quot;";
    assert rep == ['&', 'q', 'u', 'o', 't', ';'];
    ReplaceCharKeepsOut(s3, '"', rep, '<');
    ReplaceCharKeepsOut(s3, '"', rep, '>');
    ReplaceCharKeepsOut(s3, '"', rep, '"');
  }

  lemma AposGone(s4: string, r: string)
    requires '<' !in s4 && '>' !in s4 && '"' !in s4 && r == ReplaceChar(s4, '\'', "&#39;")
    ensures '<' !in r && '>' !in r && '"' !in r && '\'' !in r
  {
    var rep := "&#39;";
    assert rep == ['&', '#', '3', '9', ';'];
    ReplaceCharKeepsOut(s4, '\'', rep, '<');
    ReplaceCharKeepsOut(s4, '\'', rep, '>');
    ReplaceCharKeepsOut(s4, '\'', rep, '"');
    ReplaceCharKeepsOut(s4, '\'', rep, '\'');
  }

  /**
   * The same five replacements with `&` done last: the ampersands of the
   * entities inserted before it are escaped a second time.
   */
  function EscapeAmpersandLast(s: string): string
  {
    var s1 := ReplaceChar(s, '<', "&lt;");
    var s2 := ReplaceChar(s1, '>', "&gt;");
    var s3 := ReplaceChar(s2, '"', "&quot;");
    var s4 := ReplaceChar(s3, '\'', "&#39;");
    ReplaceChar(s4, '&', "&amp;")
  }

  /** Why the order matters: `<` escapes to `&lt;`, not to `&amp;lt;`. */
  lemma AmpersandFirstMatters()
    ensures EscapeHtml("<") == "&lt;"
    ensures EscapeAmpersandLast("<") == "&amp;" + "lt;"
  {
    EscapeHtmlChar('<');
    var lt, tail := ['&', 'l', 't', ';'], ['l', 't', ';'];
    assert "<" == ['<'] && "&lt;" == lt && "lt;" == tail;
    ReplaceCharOne('<', '<', "&lt;");
    LtUntouched('>', "&gt;");
    LtUntouched('"', "&quot;");
    LtUntouched('\'', "&#39;");
    assert lt == ['&'] + tail;
    ReplaceCharAppend(['&'], tail, '&', "&amp;");
    ReplaceCharOne('&', '&', "&amp;");
    ReplaceCharAbsent(tail, '&', "&amp;");
  }

  lemma LtUntouched(c: char, rep: string)
    requires c != '&' && c != 'l' && c != 't' && c != ';'
    ensures ReplaceChar(['&', 'l', 't', ';'], c, rep) == ['&', 'l', 't', ';']
  {
    ReplaceCharAbsent(['&', 'l', 't', ';'], c, rep);
  }

  lemma ReplaceCharOne(c: char, d: char, rep: string)
    ensures ReplaceChar([c], d, rep) == if c == d then rep else [c]
  {
    assert [c][1..] == [];
  }

  /**
   * A text where the characters of `decoded` stand for themselves and the
   * other special characters by their entities: `Escaped(s, {})` is the
   * escaped text, `Escaped(s, {all five})` the text itself.
   */
  function Partial(c: char, decoded: set<char>): string
  {
    if c in decoded then [c] else EntityOf(c)
  }

  function Escaped(s: string, decoded: set<char>): string
  {
    if |s| == 0 then "" else Partial(s[0], decoded) + Escaped(s[1..], decoded)
  }

  lemma {:induction false} EscapedAppend(a: string, b: string, decoded: set<char>)
    ensures Escaped(a + b, decoded) == Escaped(a, decoded) + Escaped(b, decoded)
  {
    if |a| == 0 {
      assert a + b == b;
    } else {
      assert (a + b)[1..] == a[1..] + b;
      EscapedAppend(a[1..], b, decoded);
      ConcatAssoc(Partial(a[0], decoded), Escaped(a[1..], decoded), Escaped(b, decoded));
    }
  }

  lemma EscapeHtmlAppend(a: string, b: string)
    ensures EscapeHtml(a + b) == EscapeHtml(a) + EscapeHtml(b)
  {
    ReplaceCharAppend(a, b, '&', "&amp;");
    var a1, b1 := ReplaceChar(a, '&', "&amp;"), ReplaceChar(b, '&', "&amp;");
    ReplaceCharAppend(a1, b1, '<', "&lt;");
    var a2, b2 := ReplaceChar(a1, '<', "&lt;"), ReplaceChar(b1, '<', "&lt;");
    ReplaceCharAppend(a2, b2, '>', "&gt;");
    var a3, b3 := ReplaceChar(a2, '>', "&gt;"), ReplaceChar(b2, '>', "&gt;");
    ReplaceCharAppend(a3, b3, '"', "&quot;");
    var a4, b4 := ReplaceChar(a3, '"', "&quot;"), ReplaceChar(b3, '"', "&quot;");
    ReplaceCharAppend(a4, b4, '\'', "&#39;");
  }

  lemma EscapeHtmlChar(c: char)
    ensures EscapeHtml([c]) == EntityOf(c)
  {
    ReplaceCharOne(c, '&', "&amp;");
    var s1 := ReplaceChar([c], '&', "&amp;");
    if c == '&' {
      assert '<' !in s1 && '>' !in s1 && '"' !in s1 && '\'' !in s1;
    } else {
      ReplaceCharOne(c, '<', "&lt;");
      ReplaceCharOne(c, '>', "&gt;");
      ReplaceCharOne(c, '"', "&quot;");
      ReplaceCharOne(c, '\'', "&#39;");
      var s2 := ReplaceChar(s1, '<', "&lt;");
      if c == '<' {
        assert '>' !in s2 && '"' !in s2 && '\'' !in s2;
      } else {
        var s3 := ReplaceChar(s2, '>', "&gt;");
        if c == '>' {
          assert '"' !in s3 && '\'' !in s3;
        } else {
          var s4 := ReplaceChar(s3, '"', "&quot;");
          if c == '"' {
            assert '\'' !in s4;
          }
        }
      }
    }
  }

  /** `escapeHtml` replaces each character by its entity, independently of its neighbours. */
  lemma {:induction false} EscapeIsCharwise(s: string)
    ensures EscapeHtml(s) == Escaped(s, {})
  {
    if |s| == 0 {
      assert ReplaceChar(s, '&', "&amp;") == s;
    } else {
      assert s == [s[0]] + s[1..];
      EscapeHtmlAppend([s[0]], s[1..]);
      EscapeHtmlChar(s[0]);
      EscapeIsCharwise(s[1..]);
    }
  }

  /**
   * Decoding one entity, with `&amp;` not decoded yet, turns exactly the
   * occurrences that stand for `c` back into `c`.
   */
  lemma {:induction false} DecodeStep(s: string, decoded: set<char>, c: char)
    requires Special(c) && c !in decoded && '&' !in decoded
    ensures ReplaceAll(Escaped(s, decoded), EntityOf(c), [c]) == Escaped(s, decoded + {c})
  {
    if |s| > 0 {
      var d := s[0];
      var x := Partial(d, decoded);
      var rest := Escaped(s[1..], decoded);
      DecodeStep(s[1..], decoded, c);
      if d == c {
        ReplaceAllMatch(rest, EntityOf(c), [c]);
      } else {
        assert Partial(d, decoded + {c}) == x;
        if Special(d) && d !in decoded {
          EntitiesDiffer(d, c);
        }
        ReplaceAllSkip(x, rest, EntityOf(c), [c]);
      }
    }
  }

  lemma {:induction false} EscapedNothing(s: string, decoded: set<char>)
    requires forall i :: 0 <= i < |s| ==> !Special(s[i]) || s[i] in decoded
    ensures Escaped(s, decoded) == s
  {
    if |s| > 0 {
      EscapedNothing(s[1..], decoded);
      assert s == [s[0]] + s[1..];
    }
  }

  /** Decoding `&lt;`, `&gt;`, `&quot;`, `&#39;` and then `&amp;`, each by a `replaceAll`. */
  function UnescapeHtml(t: string): string
  {
    var t1 := ReplaceAll(t, "&lt;", "<");
    var t2 := ReplaceAll(t1, "&gt;", ">");
    var t3 := ReplaceAll(t2, "&quot;", "\"");
    var t4 := ReplaceAll(t3, "&#39;", "'");
    ReplaceAll(t4, "&amp;", "&")
  }

  /** Because `&` is escaped first, decoding with `&amp;` last recovers the input. */
  lemma EscapeRoundTrip(s: string)
    ensures UnescapeHtml(EscapeHtml(s)) == s
  {
    var d0: set<char> := {};
    var d1 := d0 + {'<'};
    var d2 := d1 + {'>'};
    var d3 := d2 + {'"'};
    var d4 := d3 + {'\''};
    var d5 := d4 + {'&'};
    EscapeIsCharwise(s);
    var t0 := EscapeHtml(s);
    assert t0 == Escaped(s, d0);
    var t1 := ReplaceAll(t0, "&lt;", "<");
    assert t1 == Escaped(s, d1) by {
      DecodeStep(s, d0, '<');
    }
    var t2 := ReplaceAll(t1, "&gt;", ">");
    assert t2 == Escaped(s, d2) by {
      DecodeStep(s, d1, '>');
    }
    var t3 := ReplaceAll(t2, "&quot;", "\"");
    assert t3 == Escaped(s, d3) by {
      DecodeStep(s, d2, '"');
    }
    var t4 := ReplaceAll(t3, "&#39;", "'");
    assert t4 == Escaped(s, d4) by {
      DecodeStep(s, d3, '\'');
    }
    var t5 := ReplaceAll(t4, "&amp;", "&");
    assert t5 == Escaped(s, d5) by {
      DecodeStep(s, d4, '&');
    }
    EscapedNothing(s, d5);
  }


  // ---------------------------------------------------------------------
  // variant: slug and parameter object
  // ---------------------------------------------------------------------

  /** The JSON values the parameter objects are made of. */
  datatype Json = JNum(n: real) | JStr(str: string) | JObj(fields: Fields)

  /** A JavaScript object: its own properties in insertion order. */
  type Fields = seq<(string, Json)>

  /** `Object.keys(obj)` */
  function Keys(f: Fields): seq<string>
  {
    seq(|f|, i requires 0 <= i < |f| => f[i].0)
  }

  /** An object has no property twice. */
  predicate UniqueKeys(f: Fields)
  {
    forall i, j :: 0 <= i < j < |f| ==> f[i].0 != f[j].0
  }

  function FirstIndex(ks: seq<string>, k: string): (r: Option<nat>)
    ensures r.Some? ==> r.value < |ks| && ks[r.value] == k
    ensures r.Some? ==> forall j :: 0 <= j < r.value ==> ks[j] != k
    ensures r.None? <==> k !in ks
  {
    if |ks| == 0 then None
    else if ks[0] == k then Some(0)
    else
      match FirstIndex(ks[1..], k)
      case None => None
      case Some(i) => Some(i + 1)
  }

  lemma {:induction false} FirstIndexUnique(ks: seq<string>, k: string, i: nat)
    requires i < |ks| && ks[i] == k
    requires forall j :: 0 <= j < i ==> ks[j] != k
    ensures FirstIndex(ks, k) == Some(i)
  {
    if i > 0 {
      FirstIndexUnique(ks[1..], k, i - 1);
    }
  }

  /** Where property `k` sits in the object. */
  function KeyIndex(f: Fields, k: string): (r: Option<nat>)
    ensures r.Some? ==> r.value < |f| && f[r.value].0 == k
    ensures r.None? <==> k !in Keys(f)
  {
    FirstIndex(Keys(f), k)
  }

  /** `obj[k]`, with `None` for a missing property. */
  function Lookup(f: Fields, k: string): Option<Json>
  {
    match KeyIndex(f, k)
    case None => None
    case Some(i) => Some(f[i].1)
  }

  /**
   * `obj[k] = v`: an existing property keeps its place and takes the new
   * value, a new one goes last.
   */
  function Assign(f: Fields, k: string, v: Json): (r: Fields)
    ensures Keys(r) == if k in Keys(f) then Keys(f) else Keys(f) + [k]
    ensures forall k' :: Lookup(r, k') == if k' == k then Some(v) else Lookup(f, k')
    ensures UniqueKeys(f) ==> UniqueKeys(r)
  {
    match KeyIndex(f, k)
    case Some(i) =>
      var r := f[i := (k, v)];
      assert Keys(r) == Keys(f);
      r
    case None =>
      var r := f + [(k, v)];
      assert forall i :: 0 <= i < |f| ==> f[i].0 == Keys(f)[i];
      assert forall k' :: KeyIndex(r, k') == if k' == k then Some(|f|) else KeyIndex(f, k') by {
        forall k' ensures KeyIndex(r, k') == if k' == k then Some(|f|) else KeyIndex(f, k') {
          KeyIndexAppend(f, k, v, k');
        }
      }
      r
  }

  lemma KeyIndexAppend(f: Fields, k: string, v: Json, k': string)
    requires k !in Keys(f)
    ensures KeyIndex(f + [(k, v)], k') == if k' == k then Some(|f|) else KeyIndex(f, k')
  {
    var ks := Keys(f);
    assert Keys(f + [(k, v)]) == ks + [k];
    if k' == k {
      assert FirstIndex(ks + [k], k) == Some(|ks|) by {
        FirstIndexUnique(ks + [k], k, |ks|);
      }
    } else {
      var i := FirstIndex(ks, k');
      assert FirstIndex(ks + [k], k') == i by {
        if i.Some? {
          FirstIndexUnique(ks + [k], k', i.value);
        } else {
          assert k' !in ks + [k];
        }
      }
    }
  }

  /** `{ ...target, ...source }`: the source's properties assigned in order. */
  function Spread(target: Fields, source: Fields): Fields
    decreases |source|
  {
    if |source| == 0 then target
    else Spread(Assign(target, source[0].0, source[0].1), source[1..])
  }

  /** The keys of `ks` not in `taken`, in order. */
  function Fresh(ks: seq<string>, taken: seq<string>): (r: seq<string>)
    ensures forall k :: k in r <==> k in ks && k !in taken
  {
    if |ks| == 0 then []
    else (if ks[0] in taken then [] else [ks[0]]) + Fresh(ks[1..], taken)
  }

  lemma {:induction false} FreshIgnores(ks: seq<string>, taken: seq<string>, k: string)
    requires k !in ks
    ensures Fresh(ks, taken + [k]) == Fresh(ks, taken)
  {
    if |ks| > 0 {
      assert ks[0] != k;
      assert ks[0] in taken + [k] <==> ks[0] in taken;
      FreshIgnores(ks[1..], taken, k);
    }
  }

  lemma {:induction false} SpreadKeys(target: Fields, source: Fields)
    requires UniqueKeys(source)
    ensures Keys(Spread(target, source)) == Keys(target) + Fresh(Keys(source), Keys(target))
    decreases |source|
  {
    if |source| == 0 {
      assert Keys(target) + [] == Keys(target);
    } else {
      var k, v := source[0].0, source[0].1;
      var t := Assign(target, k, v);
      var rest := source[1..];
      KeysCons(source);
      assert Spread(target, source) == Spread(t, rest);
      SpreadKeys(t, rest);
      var fr := Fresh(Keys(rest), Keys(target));
      FreshCons(k, Keys(rest), Keys(target));
      if k in Keys(target) {
        assert Keys(t) == Keys(target);
        assert Fresh(Keys(source), Keys(target)) == fr;
      } else {
        assert Keys(t) == Keys(target) + [k];
        FreshIgnores(Keys(rest), Keys(target), k);
        assert Fresh(Keys(source), Keys(target)) == [k] + fr;
        ConcatAssoc(Keys(target), [k], fr);
      }
    }
  }

  lemma KeysCons(f: Fields)
    requires |f| > 0
    ensures Keys(f) == [f[0].0] + Keys(f[1..])
    ensures UniqueKeys(f) ==> UniqueKeys(f[1..]) && f[0].0 !in Keys(f[1..])
  {
    assert Keys(f) == [f[0].0] + Keys(f[1..]);
  }

  lemma FreshCons(k: string, ks: seq<string>, taken: seq<string>)
    ensures Fresh([k] + ks, taken) == (if k in taken then [] else [k]) + Fresh(ks, taken)
  {
    assert ([k] + ks)[1..] == ks;
  }

  lemma LookupHead(f: Fields)
    requires |f| > 0
    ensures Lookup(f, f[0].0) == Some(f[0].1)
  {
    FirstIndexUnique(Keys(f), f[0].0, 0);
  }

  lemma LookupTail(f: Fields, k: string)
    requires |f| > 0 && f[0].0 != k
    ensures Lookup(f, k) == Lookup(f[1..], k)
  {
    var ks, rs := Keys(f), Keys(f[1..]);
    assert ks == [f[0].0] + rs;
    var i := FirstIndex(rs, k);
    if i.Some? {
      FirstIndexUnique(ks, k, i.value + 1);
    } else {
      assert k !in ks;
    }
  }

  lemma {:induction false} SpreadLookup(target: Fields, source: Fields, k: string)
    requires UniqueKeys(source)
    ensures Lookup(Spread(target, source), k) == if k in Keys(source) then Lookup(source, k) else Lookup(target, k)
    decreases |source|
  {
    if |source| > 0 {
      var k0, v0 := source[0].0, source[0].1;
      var t, rest := Assign(target, k0, v0), source[1..];
      KeysCons(source);
      assert Spread(target, source) == Spread(t, rest);
      SpreadLookup(t, rest, k);
      if k == k0 {
        LookupHead(source);
        assert Lookup(t, k) == Some(v0);
      } else {
        LookupTail(source, k);
        assert Lookup(t, k) == Lookup(target, k);
        assert k in Keys(source) <==> k in Keys(rest);
      }
    }
  }

  lemma {:induction false} SpreadUnique(target: Fields, source: Fields)
    requires UniqueKeys(target)
    ensures UniqueKeys(Spread(target, source))
    decreases |source|
  {
    if |source| > 0 {
      SpreadUnique(Assign(target, source[0].0, source[0].1), source[1..]);
    }
  }

  datatype Variant = Variant(slug: string, params: Fields)

  /**
   * `variant(preset, name, patch)`. The slug joins preset and name with a
   * dash; the parameters are an object whose first property is `preset`,
   * followed by the patch's new properties in order; every patch value
   * wins, `preset` included.
   */
  function MakeVariant(preset: string, name: string, patch: Fields): (v: Variant)
    ensures |v.slug| == |preset| + 1 + |name|
    ensures v.slug[..|preset|] == preset && v.slug[|preset|] == '-' && v.slug[|preset| + 1..] == name
    ensures UniqueKeys(patch) ==>
      && Keys(v.params) == ["preset"] + Fresh(Keys(patch), ["preset"])
      && UniqueKeys(v.params)
      && forall k :: Lookup(v.params, k) ==
           if k in Keys(patch) then Lookup(patch, k)
           else if k == "preset" then Some(JStr(preset))
           else None
  {
    var base: Fields := [("preset", JStr(preset))];
    var v := Variant(preset + "-" + name, Spread(base, patch));
    if UniqueKeys(patch) then
      assert Keys(base) == ["preset"];
      SpreadKeys(base, patch);
      SpreadUnique(base, patch);
      var merged := (k: string) => if k in Keys(patch) then Lookup(patch, k) else if k == "preset" then Some(JStr(preset)) else None;
      assert forall k :: Lookup(Spread(base, patch), k) == merged(k) by {
        forall k ensures Lookup(Spread(base, patch), k) == merged(k) {
          SpreadLookup(base, patch, k);
        }
      }
      v
    else v
  }

  // ---------------------------------------------------------------------
  // signalScore: reading the signalstats keys
  // ---------------------------------------------------------------------

  const YMinKey: string := "lavfi.signalstats.YMIN="
  const YMaxKey: string := "lavfi.signalstats.YMAX="
  const YAvgKey: string := "lavfi.signalstats.YAVG="

  /** The score of a still whose brightness could not be read. */
  const Sentinel: real := -999.0

  predicate AllDigits(s: string)
  {
    forall i :: 0 <= i < |s| ==> IsDigit(s[i])
  }

  /** The length of the run of digits starting at `i`. */
  function DigitRun(s: string, i: nat): (n: nat)
    requires i <= |s|
    ensures i + n <= |s| && AllDigits(s[i..i + n])
    ensures i + n == |s| || !IsDigit(s[i + n])
    decreases |s| - i
  {
    if i < |s| && IsDigit(s[i]) then
      var m := DigitRun(s, i + 1);
      assert s[i..i + 1 + m] == [s[i]] + s[i + 1..i + 1 + m];
      1 + m
    else 0
  }

  /** A match of `key` immediately followed by a digit: where `key(\d+(?:\.\d+)?)` matches. */
  predicate MetricAt(text: string, key: string, i: int)
  {
    OccursAt(text, key, i) && i + |key| < |text| && IsDigit(text[i + |key|])
  }

  function FirstMetric(text: string, key: string, from: nat): (r: Option<nat>)
    ensures r.Some? ==> from <= r.value && MetricAt(text, key, r.value)
    ensures r.Some? ==> forall j :: from <= j < r.value ==> !MetricAt(text, key, j)
    ensures r.None? ==> forall j :: from <= j ==> !MetricAt(text, key, j)
    decreases |text| - from
  {
    if from + |key| >= |text| then None
    else if MetricAt(text, key, from) then Some(from)
    else FirstMetric(text, key, from + 1)
  }

  /** The captured number: digits, then optionally a dot and more digits. */
  datatype Decimal = Decimal(whole: string, frac: string)

  /** The capture group `(\d+(?:\.\d+)?)` at position `j`, both parts greedy. */
  function NumberAt(text: string, j: nat): (d: Decimal)
    requires j < |text| && IsDigit(text[j])
    ensures |d.whole| >= 1 && AllDigits(d.whole) && AllDigits(d.frac)
    ensures j + |d.whole| <= |text| && text[j..j + |d.whole|] == d.whole
    ensures j + |d.whole| == |text| || !IsDigit(text[j + |d.whole|])
    ensures |d.frac| > 0 ==>
      var k := j + |d.whole|;
      k + 1 + |d.frac| <= |text| && text[k] == '.' && text[k + 1..k + 1 + |d.frac|] == d.frac
    ensures var k := j + |d.whole|;
      |d.frac| > 0 <==> (k + 1 < |text| && text[k] == '.' && IsDigit(text[k + 1]))
    ensures |d.frac| > 0 ==>
      var e := j + |d.whole| + 1 + |d.frac|;
      e == |text| || !IsDigit(text[e])
  {
    var n := DigitRun(text, j);
    var k := j + n;
    if k + 1 < |text| && text[k] == '.' && IsDigit(text[k + 1]) then
      Decimal(text[j..k], text[k + 1..k + 1 + DigitRun(text, k + 1)])
    else
      Decimal(text[j..k], "")
  }

  /** `text.match(/key(\d+(?:\.\d+)?)/)`: the first match's capture, if any. */
  function Metric(text: string, key: string): (r: Option<Decimal>)
    ensures r.None? <==> forall i :: !MetricAt(text, key, i)
    ensures r.Some? ==> exists i ::
      && MetricAt(text, key, i)
      && (forall j :: 0 <= j < i ==> !MetricAt(text, key, j))
      && r.value == NumberAt(text, i + |key|)
    ensures r.Some? ==> |r.value.whole| >= 1 && AllDigits(r.value.whole) && AllDigits(r.value.frac)
  {
    match FirstMetric(text, key, 0)
    case None => None
    case Some(i) => Some(NumberAt(text, i + |key|))
  }

  function Pow10(n: nat): (p: nat)
    ensures p >= 1
  {
    if n == 0 then 1 else 10 * Pow10(n - 1)
  }

  lemma {:induction false} ParseNatBelowPow10(s: string)
    requires AllDigits(s)
    ensures ParseNat(s) < Pow10(|s|)
  {
    if |s| > 0 {
      ParseNatBelowPow10(s[..|s| - 1]);
    }
  }

  /** `Number(capture)` */
  function DecimalValue(d: Decimal): (v: real)
    requires AllDigits(d.whole) && AllDigits(d.frac)
    ensures ParseNat(d.whole) as real <= v < ParseNat(d.whole) as real + 1.0
  {
    ParseNatBelowPow10(d.frac);
    var f, p := ParseNat(d.frac) as real, Pow10(|d.frac|) as real;
    FractionBelowOne(f, p);
    ParseNat(d.whole) as real + f / p
  }

  lemma FractionBelowOne(f: real, p: real)
    requires 0.0 <= f < p
    ensures 0.0 <= f / p < 1.0
  {
    assert f / p * p == f;
  }

  datatype Stats = Stats(yMin: real, yMax: real, yAvg: real)
  datatype Scored = Scored(score: real, stats: Option<Stats>)

  /**
   * `signalScore` from the text ffmpeg printed (`out`, a newline, `err`).
   * The luminance heuristic is the parameter `heuristic`, applied to the
   * three levels scaled to [0,1] by dividing by 255.
   */
  function SignalScore(out: string, err: string, heuristic: (real, real, real) -> real): (r: Scored)
    ensures var text := out + "\n" + err;
      r.stats.None? <==>
        (forall i :: !MetricAt(text, YMinKey, i)) ||
        (forall i :: !MetricAt(text, YMaxKey, i)) ||
        (forall i :: !MetricAt(text, YAvgKey, i))
    ensures r.stats.None? ==> r.score == Sentinel
    ensures r.stats.Some? ==>
      var st := r.stats.value;
      0.0 <= st.yMin && 0.0 <= st.yMax && 0.0 <= st.yAvg && r.score == heuristic(st.yMin, st.yMax, st.yAvg)
    ensures r.stats.Some? ==>
      var text, st := out + "\n" + err, r.stats.value;
      && st.yMin * 255.0 == DecimalValue(Metric(text, YMinKey).value)
      && st.yMax * 255.0 == DecimalValue(Metric(text, YMaxKey).value)
      && st.yAvg * 255.0 == DecimalValue(Metric(text, YAvgKey).value)
  {
    var text := out + "\n" + err;
    match (Metric(text, YMinKey), Metric(text, YMaxKey), Metric(text, YAvgKey))
    case (Some(lo), Some(hi), Some(avg)) =>
      var st := Stats(DecimalValue(lo) / 255.0, DecimalValue(hi) / 255.0, DecimalValue(avg) / 255.0);
      Scored(heuristic(st.yMin, st.yMax, st.yAvg), Some(st))
    case _ => Scored(Sentinel, None)
  }

  /** A key that does not occur at all in the captured text gives the sentinel. */
  lemma MissingKeySentinel(out: string, err: string, heuristic: (real, real, real) -> real)
    requires var text := out + "\n" + err;
      IndexOf(text, YMinKey).None? || IndexOf(text, YMaxKey).None? || IndexOf(text, YAvgKey).None?
    ensures SignalScore(out, err, heuristic) == Scored(Sentinel, None)
  {
  }

  // ---------------------------------------------------------------------
  // ranking: items, sort by descending score, best pick
  // ---------------------------------------------------------------------

  datatype Item = Item(slug: string, params: Fields, score: real, stats: Option<Stats>)

  function ItemOf(v: Variant, sc: Scored): Item
  {
    Item(v.slug, v.params, sc.score, sc.stats)
  }

  /**
   * The comparator `(a, b) => b.score - a.score` is negative, so `a` goes
   * first, exactly when `a` scored higher.
   */
  predicate ScoredHigher(a: Item, b: Item)
    ensures ScoredHigher(a, b) ==> b.score < a.score && !(a.score < b.score)
    ensures !ScoredHigher(a, b) && !(b.score > a.score) ==> a.score == b.score
  {
    a.score > b.score
  }

  lemma ScoredHigherConsistent()
    ensures StrictWeakOrder(ScoredHigher)
  {
    forall a: Item, b: Item, c: Item
      ensures Transitive3(ScoredHigher, a, b, c) && NegativelyTransitive3(ScoredHigher, a, b, c)
    {
    }
  }

  /**
   * The loop over the variants: each variant, once rendered and scored,
   * is pushed as an item. The scores, which come from running the
   * renderer and ffmpeg, are an input here.
   */
  method CollectItems(variants: seq<Variant>, scores: seq<Scored>) returns (items: seq<Item>)
    requires |scores| == |variants|
    ensures |items| == |variants|
    ensures forall i :: 0 <= i < |items| ==> items[i] == ItemOf(variants[i], scores[i])
  {
    items := [];
    for i := 0 to |variants|
      invariant |items| == i
      invariant forall k :: 0 <= k < i ==> items[k] == ItemOf(variants[k], scores[k])
    {
      items := items + [ItemOf(variants[i], scores[i])];
    }
  }

  /**
   * The position of the first item with the highest score: no item
   * scores higher, every earlier item scores lower.
   */
  function FirstMaxIndex(items: seq<Item>): (m: nat)
    requires |items| > 0
    ensures m < |items|
    ensures forall j :: 0 <= j < |items| ==> items[j].score <= items[m].score
    ensures forall j :: 0 <= j < m ==> items[j].score < items[m].score
  {
    if |items| == 1 then 0
    else
      var k := FirstMaxIndex(items[..|items| - 1]);
      if items[|items| - 1].score > items[k].score then |items| - 1 else k
  }

  /** The two properties determine the position. */
  lemma FirstMaxIndexUnique(items: seq<Item>, m: nat)
    requires m < |items|
    requires forall j :: 0 <= j < |items| ==> items[j].score <= items[m].score
    requires forall j :: 0 <= j < m ==> items[j].score < items[m].score
    ensures FirstMaxIndex(items) == m
  {
  }

  /** `items.reduce((a, b) => (b.score > a.score ? b : a), acc)` */
  function ReduceBest(items: seq<Item>, acc: Item): (best: Item)
    ensures best == acc || best in items
    ensures acc.score <= best.score
    ensures forall j :: 0 <= j < |items| ==> items[j].score <= best.score
  {
    if |items| == 0 then acc
    else
      var a := ReduceBest(items[..|items| - 1], acc);
      var b := items[|items| - 1];
      if b.score > a.score then b else a
  }

  /** The strict `>` keeps the earlier item on ties: the reduce finds the first maximum. */
  lemma {:induction false} ReduceIsFirstMax(items: seq<Item>)
    requires |items| > 0
    ensures ReduceBest(items, items[0]) == items[FirstMaxIndex(items)]
  {
    if |items| > 1 {
      var p := items[..|items| - 1];
      assert p[0] == items[0];
      ReduceIsFirstMax(p);
      assert p[FirstMaxIndex(p)] == items[FirstMaxIndex(p)];
    } else {
      assert ReduceBest(items[..0], items[0]) == items[0];
    }
  }

  /**
   * The page's best slug: the reduce from `items[0]`, and `''` for no
   * items; that is the slug of the first item with the highest score.
   */
  function BestSlug(items: seq<Item>): (slug: string)
    ensures |items| == 0 ==> slug == ""
    ensures |items| > 0 ==> slug == items[FirstMaxIndex(items)].slug
  {
    if |items| == 0 then ""
    else
      ReduceIsFirstMax(items);
      ReduceBest(items, items[0]).slug
  }

  /** After the sort the scores never increase, and nothing is lost or added. */
  lemma RankedDescending(items: seq<Item>)
    ensures var r := Sort(items, ScoredHigher);
      && multiset(r) == multiset(items)
      && (forall i, j :: 0 <= i < j < |r| ==> r[i].score >= r[j].score)
      && (|r| > 0 ==> forall j :: 0 <= j < |r| ==> r[j].score <= r[0].score)
  {
    ScoredHigherConsistent();
    SortIsPermutation(items, ScoredHigher);
    SortIsSorted(items, ScoredHigher);
    var r := Sort(items, ScoredHigher);
    assert |r| == |items| by {
      assert |multiset(r)| == |multiset(items)|;
    }
    forall i, j | 0 <= i < j < |r|
      ensures r[i].score >= r[j].score
    {
      assert !ScoredHigher(r[j], r[i]);
    }
  }

  lemma {:induction false} TiedWithFirst(s: seq<Item>, x: Item, k: nat)
    requires k < |s| && Tied(ScoredHigher, s[k], x)
    requires forall j :: 0 <= j < k ==> !Tied(ScoredHigher, s[j], x)
    ensures |TiedWith(s, x, ScoredHigher)| > 0 && TiedWith(s, x, ScoredHigher)[0] == s[k]
  {
    if k > 0 {
      TiedWithFirst(s[1..], x, k - 1);
    }
  }

  /**
   * The stable sort puts first the earliest of the best-scored items, so
   * the gallery's best slug is the slug of the item `main` picks.
   */
  lemma RankedBestIsFirstMax(items: seq<Item>)
    requires |items| > 0
    ensures var r := Sort(items, ScoredHigher);
      && |r| == |items|
      && r[0] == items[FirstMaxIndex(items)]
      && BestSlug(r) == r[0].slug
  {
    ScoredHigherConsistent();
    RankedDescending(items);
    var r := Sort(items, ScoredHigher);
    assert |r| == |items| by {
      assert |multiset(r)| == |multiset(items)|;
    }
    var m := FirstMaxIndex(items);
    var x := items[m];
    assert r[0] in multiset(items) by {
      assert r[0] in multiset(r);
    }
    assert x in multiset(r) by {
      assert x in multiset(items);
    }
    assert r[0].score == x.score;
    SortIsStable(items, x, ScoredHigher);
    TiedWithFirst(items, x, m);
    TiedWithFirst(r, x, 0);
    FirstMaxIndexUnique(r, 0);
  }

  /**
   * `main`'s ranking: the items in variant order, sorted in place by
   * descending score, and the first of them as the best.
   */
  method RankVariants(variants: seq<Variant>, scores: seq<Scored>) returns (ranked: seq<Item>, best: Option<Item>)
    requires |scores| == |variants|
    ensures var items := seq(|variants|, i requires 0 <= i < |variants| => ItemOf(variants[i], scores[i]));
      ranked == Sort(items, ScoredHigher)
    ensures |ranked| == |variants|
    ensures best == if |ranked| == 0 then None else Some(ranked[0])
  {
    var items := CollectItems(variants, scores);
    assert items == seq(|variants|, i requires 0 <= i < |variants| => ItemOf(variants[i], scores[i]));
    var a := new Item[|items|](i requires 0 <= i < |items| => items[i]);
    assert a[..] == items;
    SortInPlace(a, ScoredHigher);
    ranked := a[..];
    SortIsPermutation(items, ScoredHigher);
    assert |multiset(ranked)| == |multiset(items)|;
    best := if a.Length == 0 then None else Some(a[0]);
  }
}
