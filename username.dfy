/**
 * Username normalisation: lower-case, map every character outside
 * `[a-z0-9_]` to `_`, collapse runs of `_`, trim `_` at both ends, and
 * report "no username" when nothing is left.
 */
module Username {
  import opened Wrappers
  import opened Text

  /** The characters a normalised username is made of. */
  predicate IsAllowed(c: char) { IsLower(c) || IsDigit(c) || c == '_' }

  /** `.replace(/[^a-z0-9_]/g, "_")` */
  function Replace(s: string): (r: string)
    ensures |r| == |s|
    ensures forall i :: 0 <= i < |s| ==> r[i] == (if IsAllowed(s[i]) then s[i] else '_')
  {
    seq(|s|, i requires 0 <= i < |s| => if IsAllowed(s[i]) then s[i] else '_')
  }

  /** No two consecutive separators. */
  predicate NoDoubleSep(s: string)
  {
    forall i :: 1 <= i < |s| ==> !(s[i - 1] == '_' && s[i] == '_')
  }

  /** The non-separator characters of `s`, in order. */
  function Strip(s: string): string
  {
    if s == [] then [] else (if s[0] == '_' then [] else [s[0]]) + Strip(s[1..])
  }

  lemma {:induction false} StripAppend(a: string, b: string)
    ensures Strip(a + b) == Strip(a) + Strip(b)
  {
    if a != [] {
      assert (a + b)[1..] == a[1..] + b;
      StripAppend(a[1..], b);
    } else {
      assert a + b == b;
    }
  }

  /** `.replace(/_+/g, "_")` : every run of separators becomes a single one. */
  function Collapse(s: string): string
    decreases |s|
  {
    if |s| <= 1 then s
    else if s[0] == '_' && s[1] == '_' then Collapse(s[1..])
    else [s[0]] + Collapse(s[1..])
  }

  /**
   * Collapsing keeps the first character and only characters of the input,
   * leaves no `__`, keeps the non-separator characters in order, and leaves
   * a string without `__` as it is.
   */
  lemma CollapseSpec(s: string)
    ensures |s| > 0 ==> |Collapse(s)| > 0 && Collapse(s)[0] == s[0]
    ensures forall i :: 0 <= i < |Collapse(s)| ==> Collapse(s)[i] in s
    ensures NoDoubleSep(Collapse(s))
    ensures Strip(Collapse(s)) == Strip(s)
    ensures NoDoubleSep(s) ==> Collapse(s) == s
  {
    CollapseShape(s);
    CollapseKeepsStrip(s);
    CollapseIdentity(s);
  }

  lemma {:induction false} CollapseShape(s: string)
    ensures |s| > 0 ==> |Collapse(s)| > 0 && Collapse(s)[0] == s[0]
    ensures forall i :: 0 <= i < |Collapse(s)| ==> Collapse(s)[i] in s
    ensures NoDoubleSep(Collapse(s))
    decreases |s|
  {
    if |s| > 1 {
      CollapseShape(s[1..]);
      assert forall c :: c in s[1..] ==> c in s;
      if !(s[0] == '_' && s[1] == '_') {
        var rest := Collapse(s[1..]);
        assert ([s[0]] + rest)[1..] == rest;
      }
    }
  }

  lemma {:induction false} CollapseKeepsStrip(s: string)
    ensures Strip(Collapse(s)) == Strip(s)
    decreases |s|
  {
    if |s| > 1 {
      CollapseKeepsStrip(s[1..]);
      if !(s[0] == '_' && s[1] == '_') {
        var rest := Collapse(s[1..]);
        assert ([s[0]] + rest)[1..] == rest;
      }
    }
  }

  lemma {:induction false} CollapseIdentity(s: string)
    ensures NoDoubleSep(s) ==> Collapse(s) == s
    decreases |s|
  {
    if |s| > 1 && NoDoubleSep(s) {
      assert NoDoubleSep(s[1..]) by {
        forall i | 1 <= i < |s[1..]| ensures !(s[1..][i - 1] == '_' && s[1..][i] == '_') {
          assert s[1..][i - 1] == s[i] && s[1..][i] == s[i + 1];
        }
      }
      CollapseIdentity(s[1..]);
      assert !(s[0] == '_' && s[1] == '_');
      assert s == [s[0]] + s[1..];
    }
  }

  /** Removing every leading separator (the `^_+` half of the trim). */
  function TrimLeading(s: string): string
  {
    if |s| > 0 && s[0] == '_' then TrimLeading(s[1..]) else s
  }

  /** The result is a suffix of the input that does not start with `_` and keeps every non-separator. */
  lemma {:induction false} TrimLeadingSpec(s: string)
    ensures |TrimLeading(s)| <= |s| && TrimLeading(s) == s[|s| - |TrimLeading(s)|..]
    ensures |TrimLeading(s)| > 0 ==> TrimLeading(s)[0] != '_'
    ensures Strip(TrimLeading(s)) == Strip(s)
  {
    if |s| > 0 && s[0] == '_' {
      var t := TrimLeading(s[1..]);
      TrimLeadingSpec(s[1..]);
      assert TrimLeading(s) == t;
      assert s[1..][|s[1..]| - |t|..] == s[|s| - |t|..];
      assert Strip(s) == Strip(s[1..]);
    }
  }

  /** Removing every trailing separator (the `_+$` half of the trim). */
  function TrimTrailing(s: string): string
  {
    if |s| > 0 && s[|s| - 1] == '_' then TrimTrailing(s[..|s| - 1]) else s
  }

  /** The result is a prefix of the input that does not end with `_` and keeps every non-separator. */
  lemma {:induction false} TrimTrailingSpec(s: string)
    ensures |TrimTrailing(s)| <= |s| && TrimTrailing(s) == s[..|TrimTrailing(s)|]
    ensures |TrimTrailing(s)| > 0 ==> TrimTrailing(s)[|TrimTrailing(s)| - 1] != '_'
    ensures Strip(TrimTrailing(s)) == Strip(s)
  {
    if |s| > 0 && s[|s| - 1] == '_' {
      TrimTrailingSpec(s[..|s| - 1]);
      assert s == s[..|s| - 1] + ['_'];
      StripAppend(s[..|s| - 1], ['_']);
    }
  }

  /**
   * `normalizeUsername` : the chain lower-case, replace, collapse, trim,
   * with `None` for the JavaScript `null` returned on an empty outcome.
   * The result is `None` exactly when the input has no ASCII letter or
   * digit; otherwise it is a canonical name whose non-separator characters
   * are exactly the input's letters and digits, lower-cased, in order.
   */
  function Normalize(value: string): (r: Option<string>)
    ensures r.None? <==> forall i :: 0 <= i < |value| ==> !IsAlnum(value[i])
    ensures r.Some? ==> Canonical(r.value)
    ensures r.Some? ==> Strip(r.value) == Kept(value)
  {
    var s := Replace(LowerAscii(value));
    StripReplaced(value);
    KeptEmptyIff(value);
    CollapseTrimShape(s);
    var t := Tidy(s);
    if t == [] then None else Some(t)
  }

  /** Collapse, then trim: the steps after the character mapping. */
  function Tidy(s: string): string
  {
    TrimTrailing(TrimLeading(Collapse(s)))
  }

  /** A string that normalisation can return. */
  predicate Canonical(r: string)
  {
    && |r| > 0
    && (forall i :: 0 <= i < |r| ==> IsAllowed(r[i]))
    && NoDoubleSep(r)
    && r[0] != '_'
    && r[|r| - 1] != '_'
  }

  /** The characters of `value` that survive normalisation: its ASCII letters and digits, lower-cased. */
  function Kept(value: string): string
  {
    if value == [] then []
    else (if IsAlnum(value[0]) then [ToLower(value[0])] else []) + Kept(value[1..])
  }

  /** Nothing survives exactly when the input holds no ASCII letter or digit. */
  lemma {:induction false} KeptEmptyIff(value: string)
    ensures Kept(value) == [] <==> forall i :: 0 <= i < |value| ==> !IsAlnum(value[i])
  {
    if value != [] {
      KeptEmptyIff(value[1..]);
      assert forall i :: 1 <= i < |value| ==> value[i] == value[1..][i - 1];
    }
  }

  lemma {:induction false} StripReplaced(value: string)
    ensures Strip(Replace(LowerAscii(value))) == Kept(value)
  {
    if value != [] {
      var s := Replace(LowerAscii(value));
      assert s[1..] == Replace(LowerAscii(value[1..]));
      StripReplaced(value[1..]);
    }
  }

  lemma {:induction false} SliceKeepsShape(s: string, lo: int, hi: int)
    requires 0 <= lo <= hi <= |s|
    requires forall i :: 0 <= i < |s| ==> IsAllowed(s[i])
    requires NoDoubleSep(s)
    ensures forall i :: 0 <= i < hi - lo ==> IsAllowed(s[lo..hi][i])
    ensures NoDoubleSep(s[lo..hi])
  {
    var t := s[lo..hi];
    forall i | 1 <= i < |t| ensures !(t[i - 1] == '_' && t[i] == '_') {
      assert t[i - 1] == s[lo + i - 1] && t[i] == s[lo + i];
    }
  }

  /** Collapsing a string of allowed characters. */
  lemma CollapseAllowed(s: string)
    requires forall i :: 0 <= i < |s| ==> IsAllowed(s[i])
    ensures var c := Collapse(s);
      && (forall i :: 0 <= i < |c| ==> IsAllowed(c[i]))
      && NoDoubleSep(c)
      && Strip(c) == Strip(s)
  {
    CollapseShape(s);
    CollapseKeepsStrip(s);
  }

  /** Trimming a string of allowed characters without `__`. */
  lemma TrimShape(c: string)
    requires forall i :: 0 <= i < |c| ==> IsAllowed(c[i])
    requires NoDoubleSep(c)
    ensures var t := TrimTrailing(TrimLeading(c));
      && Strip(t) == Strip(c)
      && (t == [] <==> Strip(c) == [])
      && (t != [] ==> Canonical(t))
  {
    var l := TrimLeading(c);
    TrimLeadingSpec(c);
    var t := TrimTrailing(l);
    TrimTrailingSpec(l);
    if t != [] {
      assert Strip(t) == [t[0]] + Strip(t[1..]);
      SliceKeepsShape(c, |c| - |l|, |c|);
      SliceKeepsShape(l, 0, |t|);
      assert t[0] == l[0];
    }
  }

  /** Collapsing and trimming a string of allowed characters. */
  lemma CollapseTrimShape(s: string)
    requires forall i :: 0 <= i < |s| ==> IsAllowed(s[i])
    ensures var t := TrimTrailing(TrimLeading(Collapse(s)));
      && Strip(t) == Strip(s)
      && (t == [] <==> Strip(s) == [])
      && (t != [] ==> Canonical(t))
  {
    CollapseAllowed(s);
    TrimShape(Collapse(s));
  }

  /** A canonical name is left as it is. */
  lemma {:induction false} CanonicalIsFixpoint(r: string)
    requires Canonical(r)
    ensures Normalize(r) == Some(r)
  {
    assert LowerAscii(r) == r;
    assert Replace(r) == r;
    CollapseSpec(r);
  }

  /** Normalising twice is normalising once. */
  lemma {:induction false} NormalizeIdempotent(value: string)
    requires Normalize(value).Some?
    ensures Normalize(Normalize(value).value) == Normalize(value)
  {
    CanonicalIsFixpoint(Normalize(value).value);
  }

  /** The worked example: `"  Jane DOE!! "` becomes `"jane_doe"`. */
  lemma NormalizeExample()
    ensures Normalize("  Jane DOE!! ") == Some("jane_doe")
  {
    ExampleReplace();
    ExampleCollapse();
    ExampleTrim();
  }

  lemma ExampleReplace()
    ensures Replace(LowerAscii("  Jane DOE!! ")) == "__jane_doe___"
  {
    assert LowerAscii("  Jane DOE!! ") == "  jane doe!! ";
    assert Replace("  jane doe!! ") == "__jane_doe___";
  }

  lemma ExampleCollapse()
    ensures Collapse("__jane_doe___") == "_jane_doe_"
  {
    var head, tail := "__jane_doe", "___";
    ExampleCollapseHead();
    ExampleCollapseTail();
    CollapseAppend(head, tail);
    assert head + tail == "__jane_doe___";
  }

  lemma ExampleCollapseHead()
    ensures Collapse("__jane_doe") == "_jane_doe"
  {
    var run, word := "__", "jane_doe";
    ExampleCollapseRun();
    ExampleCollapseWord();
    CollapseAppend(run, word);
    assert run + word == "__jane_doe";
  }

  lemma ExampleCollapseRun()
    ensures Collapse("__") == "_"
  {
    assert Collapse("__") == Collapse("_");
  }

  lemma ExampleCollapseWord()
    ensures Collapse("jane_doe") == "jane_doe"
  {
    var word := "jane_doe";
    assert NoDoubleSep(word) by {
      assert forall i :: 0 <= i < |word| && i != 4 ==> word[i] != '_';
    }
    CollapseIdentity(word);
  }

  lemma ExampleCollapseTail()
    ensures Collapse("___") == "_"
  {
    assert Collapse("___") == Collapse("__");
    ExampleCollapseRun();
  }

  lemma ExampleTrim()
    ensures TrimTrailing(TrimLeading("_jane_doe_")) == "jane_doe"
  {
    assert TrimLeading("_jane_doe_") == "jane_doe_";
    assert TrimTrailing("jane_doe_") == "jane_doe";
  }

  /** Collapsing distributes over a concatenation whose seam is not `__`. */
  lemma {:induction false} CollapseAppend(a: string, b: string)
    requires |a| > 0 && |b| > 0 ==> !(a[|a| - 1] == '_' && b[0] == '_')
    ensures Collapse(a + b) == Collapse(a) + Collapse(b)
    decreases |a|
  {
    if |a| == 0 {
      assert a + b == b;
    } else if |a| == 1 {
      if |b| > 0 {
        assert (a + b)[1..] == b;
      }
    } else {
      assert (a + b)[1..] == a[1..] + b;
      CollapseAppend(a[1..], b);
    }
  }

  /** A string of separators only. */
  predicate AllSep(u: string)
  {
    forall i :: 0 <= i < |u| ==> u[i] == '_'
  }

  /** A run of separators collapses to one, and the empty run to nothing. */
  lemma {:induction false} CollapseAllSep(u: string)
    requires AllSep(u)
    ensures Collapse(u) == if u == [] then [] else "_"
    decreases |u|
  {
    if |u| > 1 {
      assert AllSep(u[1..]) by {
        forall i | 0 <= i < |u[1..]| ensures u[1..][i] == '_' {
          assert u[1..][i] == u[i + 1];
        }
      }
      CollapseAllSep(u[1..]);
    } else if |u| == 1 {
      assert u == "_";
    }
  }

  /** Collapsing keeps the last character. */
  lemma {:induction false} CollapseLast(s: string)
    requires |s| > 0
    ensures |Collapse(s)| > 0 && Collapse(s)[|Collapse(s)| - 1] == s[|s| - 1]
    decreases |s|
  {
    if |s| > 1 {
      CollapseLast(s[1..]);
    }
  }

  /** What the leading trim removes is separators only. */
  lemma {:induction false} TrimLeadingRemoved(s: string)
    ensures forall i :: 0 <= i < |s| - |TrimLeading(s)| ==> s[i] == '_'
    decreases |s|
  {
    if |s| > 0 && s[0] == '_' {
      TrimLeadingRemoved(s[1..]);
      assert forall i :: 1 <= i < |s| ==> s[i] == s[1..][i - 1];
    }
  }

  /** What the trailing trim removes is separators only. */
  lemma {:induction false} TrimTrailingRemoved(s: string)
    ensures forall i :: |TrimTrailing(s)| <= i < |s| ==> s[i] == '_'
    decreases |s|
  {
    if |s| > 0 && s[|s| - 1] == '_' {
      TrimTrailingRemoved(s[..|s| - 1]);
    }
  }

  /** The leading trim stops inside a prefix that holds a non-separator. */
  lemma {:induction false} TrimLeadingAppend(a: string, b: string)
    requires Strip(a) != []
    ensures TrimLeading(a + b) == TrimLeading(a) + b
    decreases |a|
  {
    if a[0] == '_' {
      assert (a + b)[1..] == a[1..] + b;
      TrimLeadingAppend(a[1..], b);
    }
  }

  /** The trailing trim stops inside a suffix that holds a non-separator. */
  lemma {:induction false} TrimTrailingAppend(a: string, b: string)
    requires Strip(b) != []
    ensures TrimTrailing(a + b) == a + TrimTrailing(b)
    decreases |b|
  {
    var n := |b| - 1;
    if b[n] == '_' {
      assert b == b[..n] + [b[n]];
      StripAppend(b[..n], [b[n]]);
      assert (a + b)[..|a + b| - 1] == a + b[..n];
      TrimTrailingAppend(a, b[..n]);
    }
  }

  /** A string that starts with a kept character has nothing to trim in front. */
  lemma TrimLeadingNone(w: string)
    requires |w| > 0 && w[0] != '_'
    ensures TrimLeading(w) == w
  {
  }

  /** A string that ends with a kept character has nothing to trim at the end. */
  lemma TrimTrailingNone(w: string)
    requires |w| > 0 && w[|w| - 1] != '_'
    ensures TrimTrailing(w) == w
  {
  }

  /** Trimming the collapse of a string that ends with a kept character still ends with it. */
  lemma TrimmedCollapseLast(x1: string)
    requires Strip(x1) != [] && x1[|x1| - 1] != '_'
    ensures Strip(Collapse(x1)) != []
    ensures var l := TrimLeading(Collapse(x1)); l != [] && l[|l| - 1] != '_'
  {
    var cx := Collapse(x1);
    CollapseKeepsStrip(x1);
    CollapseLast(x1);
    TrimLeadingSpec(cx);
  }

  /** Trailing separators after a kept character are trimmed away. */
  lemma TrimTrailingSeps(l: string, t: string)
    requires l != [] && l[|l| - 1] != '_'
    requires t == [] || t == "_"
    ensures TrimTrailing(l + t) == l
  {
    TrimTrailingNone(l);
    if t == [] {
      assert l + t == l;
    } else {
      assert (l + t)[..|l + t| - 1] == l;
    }
  }

  /** Separators after the last kept character vanish. */
  lemma TidyBefore(x1: string, u1: string)
    requires Strip(x1) != [] && x1[|x1| - 1] != '_' && AllSep(u1)
    ensures Tidy(x1 + u1) == TrimLeading(Collapse(x1))
  {
    var cx := Collapse(x1);
    var t := Collapse(u1);
    CollapseAllSep(u1);
    CollapseAppend(x1, u1);
    TrimmedCollapseLast(x1);
    TrimLeadingAppend(cx, t);
    TrimTrailingSeps(TrimLeading(cx), t);
  }

  /** Separators before the first kept character vanish. */
  lemma TidyAfter(u2: string, y1: string)
    requires |y1| > 0 && y1[0] != '_' && AllSep(u2)
    ensures Tidy(u2 + y1) == TrimTrailing(Collapse(y1))
  {
    var cy := Collapse(y1);
    var t := Collapse(u2);
    CollapseAllSep(u2);
    CollapseAppend(u2, y1);
    assert Collapse(u2 + y1) == t + cy;
    CollapseShape(y1);
    TrimLeadingNone(cy);
    if u2 == [] {
      assert t + cy == cy;
    } else {
      assert (t + cy)[1..] == cy;
      assert TrimLeading(t + cy) == TrimLeading(cy);
    }
  }

  /** A string with a kept character is its trailing-trimmed part followed by separators. */
  lemma SplitTrailing(x: string)
    requires Strip(x) != []
    ensures var x1 := TrimTrailing(x);
      && |x1| <= |x| && x == x1 + x[|x1|..] && AllSep(x[|x1|..])
      && Strip(x1) != [] && x1[|x1| - 1] != '_'
  {
    var x1 := TrimTrailing(x);
    TrimTrailingSpec(x);
    TrimTrailingRemoved(x);
    var u1 := x[|x1|..];
    assert x == x1 + u1;
    assert forall i :: 0 <= i < |u1| ==> u1[i] == x[|x1| + i];
  }

  /** A string with a kept character is separators followed by its leading-trimmed part. */
  lemma SplitLeading(y: string)
    requires Strip(y) != []
    ensures var y1 := TrimLeading(y);
      && |y1| <= |y| && y == y[..|y| - |y1|] + y1 && AllSep(y[..|y| - |y1|])
      && Strip(y1) != [] && y1[0] != '_'
  {
    TrimLeadingSpec(y);
    TrimLeadingRemoved(y);
  }

  /** The separators between two kept characters collapse to one. */
  lemma CollapseAround(x1: string, m: string, y1: string)
    requires |x1| > 0 && x1[|x1| - 1] != '_' && |y1| > 0 && y1[0] != '_'
    requires |m| > 0 && AllSep(m)
    ensures Collapse(x1 + (m + y1)) == Collapse(x1) + ("_" + Collapse(y1))
  {
    CollapseAllSep(m);
    CollapseAppend(m, y1);
    CollapseAppend(x1, m + y1);
  }

  /** A run of separators between two kept characters becomes one `_` in the tidied form. */
  lemma TidyJoin(x1: string, m: string, y1: string)
    requires Strip(x1) != [] && x1[|x1| - 1] != '_'
    requires Strip(y1) != [] && y1[0] != '_'
    requires |m| > 0 && AllSep(m)
    ensures Tidy(x1 + (m + y1)) == TrimLeading(Collapse(x1)) + "_" + TrimTrailing(Collapse(y1))
  {
    CollapseAround(x1, m, y1);
    var cx, cy := Collapse(x1), Collapse(y1);
    CollapseKeepsStrip(x1);
    CollapseKeepsStrip(y1);
    TrimLeadingAppend(cx, "_" + cy);
    var l := TrimLeading(cx);
    assert l + ("_" + cy) == (l + "_") + cy;
    TrimTrailingAppend(l + "_", cy);
  }

  /** The same, with each part already split at its kept characters. */
  lemma TidySeparatedParts(x1: string, u1: string, u2: string, y1: string)
    requires Strip(x1) != [] && x1[|x1| - 1] != '_' && AllSep(u1)
    requires Strip(y1) != [] && y1[0] != '_' && AllSep(u2)
    ensures Tidy((x1 + u1) + "_" + (u2 + y1)) == Tidy(x1 + u1) + "_" + Tidy(u2 + y1)
  {
    TidyBefore(x1, u1);
    TidyAfter(u2, y1);
    var m := u1 + "_" + u2;
    Regroup(x1, u1, u2, y1);
    TidyJoin(x1, m, y1);
  }

  /** The separators on both sides of the middle `_` form one run. */
  lemma Regroup(x1: string, u1: string, u2: string, y1: string)
    requires AllSep(u1) && AllSep(u2)
    ensures AllSep(u1 + "_" + u2)
    ensures (x1 + u1) + "_" + (u2 + y1) == x1 + ((u1 + "_" + u2) + y1)
  {
    var m := u1 + "_" + u2;
    forall i | 0 <= i < |m| ensures m[i] == '_' {
      if i < |u1| {
        assert m[i] == u1[i];
      } else if i > |u1| {
        assert m[i] == u2[i - |u1| - 1];
      }
    }
  }

  /**
   * A separator between two parts that each hold a non-separator becomes
   * exactly one `_` between their tidied forms.
   */
  lemma TidySeparated(x: string, y: string)
    requires Strip(x) != [] && Strip(y) != []
    ensures Tidy(x + "_" + y) == Tidy(x) + "_" + Tidy(y)
  {
    var x1 := TrimTrailing(x);
    SplitTrailing(x);
    var y1 := TrimLeading(y);
    SplitLeading(y);
    TidySeparatedParts(x1, x[|x1|..], y[..|y| - |y1|], y1);
  }

  /** The character mapping works character by character. */
  lemma ReplaceLowerAppend(a: string, b: string)
    ensures Replace(LowerAscii(a + b)) == Replace(LowerAscii(a)) + Replace(LowerAscii(b))
  {
    assert LowerAscii(a + b) == LowerAscii(a) + LowerAscii(b);
  }

  /**
   * Characters other than ASCII letters and digits between two parts that
   * each normalise to a name become exactly one `_` between the two names.
   */
  lemma NormalizeSeparated(a: string, c: char, b: string)
    requires !IsAlnum(c)
    requires Normalize(a).Some? && Normalize(b).Some?
    ensures Normalize(a + [c] + b) == Some(Normalize(a).value + "_" + Normalize(b).value)
  {
    var pa, pb := Replace(LowerAscii(a)), Replace(LowerAscii(b));
    ReplaceLowerAppend(a, [c]);
    ReplaceLowerAppend(a + [c], b);
    assert Replace(LowerAscii([c])) == "_";
    StripReplaced(a);
    StripReplaced(b);
    KeptEmptyIff(a);
    KeptEmptyIff(b);
    TidySeparated(pa, pb);
  }

  /** The separator lands between the words: `"a b"` becomes `"a_b"`. */
  lemma NormalizeSeparatorExample()
    ensures Normalize("a b") == Some("a_b")
  {
    var a, b := "a", "b";
    CanonicalIsFixpoint(a);
    CanonicalIsFixpoint(b);
    NormalizeSeparated(a, ' ', b);
    assert a + [' '] + b == "a b";
    assert a + "_" + b == "a_b";
  }

  /** A string without separators is its own list of non-separators. */
  lemma {:induction false} StripNoSep(s: string)
    requires forall i :: 0 <= i < |s| ==> s[i] != '_'
    ensures Strip(s) == s
  {
    if s != [] {
      StripNoSep(s[1..]);
      assert s == [s[0]] + s[1..];
    }
  }

  /** The character mapping turns a word of ASCII letters and digits into its kept characters. */
  lemma MappedAlnum(w: string)
    requires forall i :: 0 <= i < |w| ==> IsAlnum(w[i])
    ensures Replace(LowerAscii(w)) == Kept(w)
    ensures forall i :: 0 <= i < |w| ==> Replace(LowerAscii(w))[i] != '_'
  {
    var s := Replace(LowerAscii(w));
    assert forall i :: 0 <= i < |s| ==> s[i] == ToLower(w[i]);
    StripNoSep(s);
    StripReplaced(w);
  }

  /** A word of ASCII letters and digits normalises to itself, lower-cased. */
  lemma NormalizeAlnum(w: string)
    requires |w| > 0 && forall i :: 0 <= i < |w| ==> IsAlnum(w[i])
    ensures Normalize(w) == Some(Kept(w))
  {
    var s := Replace(LowerAscii(w));
    MappedAlnum(w);
    assert NoDoubleSep(s);
    CollapseIdentity(s);
    TrimLeadingNone(s);
    TrimTrailingNone(s);
    assert Tidy(s) == s;
  }

  lemma KeptJane()
    ensures Kept("Jane") == "jane"
  {
    var w, ane, ne, e := "Jane", "ane", "ne", "e";
    assert e[1..] == [];
    assert Kept(e) == "e";
    assert ne[1..] == e;
    assert Kept(ne) == "ne";
    assert ane[1..] == ne;
    assert Kept(ane) == "ane";
    assert w[1..] == ane;
    assert ToLower('J') == 'j';
  }

  /** Capitals are lowered in place: `"Jane"` becomes `"jane"`. */
  lemma NormalizeCapitalsExample()
    ensures Normalize("Jane") == Some("jane")
  {
    var w := "Jane";
    assert forall i :: 0 <= i < |w| ==> IsAlnum(w[i]);
    NormalizeAlnum(w);
    KeptJane();
  }

  /** A separator put in front of a run of separators lengthens the run. */
  lemma PrependSep(u2: string, y1: string)
    requires AllSep(u2)
    ensures AllSep("_" + u2)
    ensures "_" + (u2 + y1) == ("_" + u2) + y1
  {
    var v := "_" + u2;
    assert forall i :: 1 <= i < |v| ==> v[i] == u2[i - 1];
  }

  /** A separator put after a run of separators lengthens the run. */
  lemma AppendSep(x1: string, u1: string)
    requires AllSep(u1)
    ensures AllSep(u1 + "_")
    ensures (x1 + u1) + "_" == x1 + (u1 + "_")
  {
    var v := u1 + "_";
    assert forall i :: 0 <= i < |u1| ==> v[i] == u1[i];
  }

  /** A separator in front of a part that holds a non-separator tidies away. */
  lemma TidyDropsLeadingSep(y: string)
    requires Strip(y) != []
    ensures Tidy("_" + y) == Tidy(y)
  {
    var y1 := TrimLeading(y);
    SplitLeading(y);
    var u2 := y[..|y| - |y1|];
    TidyAfter(u2, y1);
    PrependSep(u2, y1);
    TidyAfter("_" + u2, y1);
  }

  /** A separator after a part that holds a non-separator tidies away. */
  lemma TidyDropsTrailingSep(x: string)
    requires Strip(x) != []
    ensures Tidy(x + "_") == Tidy(x)
  {
    var x1 := TrimTrailing(x);
    SplitTrailing(x);
    var u1 := x[|x1|..];
    TidyBefore(x1, u1);
    AppendSep(x1, u1);
    TidyBefore(x1, u1 + "_");
  }

  /**
   * A character other than an ASCII letter or digit at either end of an
   * input that normalises to a name leaves the name as it is.
   */
  lemma NormalizeDropsEdge(c: char, b: string)
    requires !IsAlnum(c)
    requires Normalize(b).Some?
    ensures Normalize([c] + b) == Normalize(b)
    ensures Normalize(b + [c]) == Normalize(b)
  {
    var pb := Replace(LowerAscii(b));
    ReplaceLowerAppend([c], b);
    ReplaceLowerAppend(b, [c]);
    assert Replace(LowerAscii([c])) == "_";
    StripReplaced(b);
    KeptEmptyIff(b);
    TidyDropsLeadingSep(pb);
    TidyDropsTrailingSep(pb);
  }
}
