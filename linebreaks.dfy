/**
 * `findLineBreaks` of `renderFaDiagrams` (src/renderer.js): in the TOML
 * document parsed from a diagram, every string at any depth of tables and
 * arrays has each backslash followed by `n` (the regex /\\n/gm) replaced by
 * a line feed. The source rewrites the parsed object in place; here it is a
 * function from the parsed value to the rewritten one.
 */
module LineBreaks {
  import opened Text

  /** A parsed TOML value: strings, tables, arrays, and the other scalars (numbers, booleans, dates). */
  datatype Toml =
    | TStr(s: string)
    | TTable(entries: seq<Entry>)
    | TArray(items: seq<Toml>)
    | TAtom(text: string)

  /** One `key = value` line of a table. */
  datatype Entry = Entry(key: string, value: Toml)

  /** The two characters `\` and `n`. */
  const BACKSLASH_N := "\\n"

  /** No backslash in `s` is followed by `n`. */
  predicate NoEscape(s: string) {
    forall i :: 0 <= i < |s| - 1 ==> !(s[i] == '\\' && s[i + 1] == 'n')
  }

  /** `s.replace(/\\n/gm, '\n')`: each backslash-n, left to right, becomes a line feed. */
  function Unescape(s: string): (r: string)
    ensures |r| <= |s|
    ensures s != [] ==> r != [] && r[0] == (if StartsAt(s, 0, BACKSLASH_N) then '\n' else s[0])
  {
    if |s| >= 2 && s[0] == '\\' && s[1] == 'n' then ['\n'] + Unescape(s[2..])
    else if s == [] then []
    else [s[0]] + Unescape(s[1..])
  }

  /** No backslash-n survives the replacement. */
  lemma {:induction false} UnescapeNoEscape(s: string)
    ensures NoEscape(Unescape(s))
  {
    if |s| >= 2 && s[0] == '\\' && s[1] == 'n' {
      UnescapeNoEscape(s[2..]);
      NoEscapeCons('\n', Unescape(s[2..]));
    } else if s != [] {
      UnescapeNoEscape(s[1..]);
      if s[0] == '\\' && s[1..] != [] {
        assert Unescape(s[1..])[0] != 'n';
      }
      NoEscapeCons(s[0], Unescape(s[1..]));
    }
  }

  lemma {:induction false} NoEscapeCons(c: char, t: string)
    requires NoEscape(t) && (c == '\\' && t != [] ==> t[0] != 'n')
    ensures NoEscape([c] + t)
  {
    var u := [c] + t;
    forall i | 0 <= i < |u| - 1 ensures !(u[i] == '\\' && u[i + 1] == 'n') {
      if i > 0 {
        assert u[i] == t[i - 1] && u[i + 1] == t[i];
      }
    }
  }

  /** Each replacement shortens the string by one: the result is as long as `s` less its backslash-n pairs. */
  lemma {:induction false} UnescapeLength(s: string)
    ensures |Unescape(s)| + Count(s, BACKSLASH_N) == |s|
  {
    if |s| >= 2 && s[0] == '\\' && s[1] == 'n' {
      UnescapeLength(s[2..]);
      assert s[1..][1..] == s[2..];
      assert !StartsAt(s[1..], 0, BACKSLASH_N);
      assert StartsAt(s, 0, BACKSLASH_N);
    } else if s != [] {
      UnescapeLength(s[1..]);
      assert !StartsAt(s, 0, BACKSLASH_N);
    }
  }

  /**
   * The replacement works piecewise wherever no backslash-n straddles the cut:
   * every character outside a pair is kept, in order.
   */
  lemma {:induction false} UnescapeConcat(x: string, y: string)
    requires x == [] || y == [] || x[|x| - 1] != '\\' || y[0] != 'n'
    decreases |x|
    ensures Unescape(x + y) == Unescape(x) + Unescape(y)
  {
    if x == [] {
      assert x + y == y;
    } else if |x| >= 2 && x[0] == '\\' && x[1] == 'n' {
      var t := x[2..];
      assert x == BACKSLASH_N + t;
      UnescapeConcat(t, y);
      ConcatPair(t, y);
    } else {
      var t := x[1..];
      assert x == [x[0]] + t;
      if t == [] {
        assert t + y == y;
      } else {
        assert (t + y)[0] == x[1];
      }
      UnescapeConcat(t, y);
      ConcatKeep(x[0], t, y);
    }
  }

  lemma {:induction false} ConcatPair(t: string, y: string)
    requires Unescape(t + y) == Unescape(t) + Unescape(y)
    ensures Unescape(BACKSLASH_N + t + y) == Unescape(BACKSLASH_N + t) + Unescape(y)
  {
    calc {
      Unescape(BACKSLASH_N + t + y);
      { assert BACKSLASH_N + t + y == BACKSLASH_N + (t + y); }
      Unescape(BACKSLASH_N + (t + y));
      { UnescapeHead(BACKSLASH_N, t + y); }
      ['\n'] + Unescape(t + y);
      ['\n'] + (Unescape(t) + Unescape(y));
      (['\n'] + Unescape(t)) + Unescape(y);
      { UnescapeHead(BACKSLASH_N, t); }
      Unescape(BACKSLASH_N + t) + Unescape(y);
    }
  }

  lemma {:induction false} ConcatKeep(c: char, t: string, y: string)
    requires !(c == '\\' && t + y != [] && (t + y)[0] == 'n')
    requires Unescape(t + y) == Unescape(t) + Unescape(y)
    ensures Unescape([c] + t + y) == Unescape([c] + t) + Unescape(y)
  {
    calc {
      Unescape([c] + t + y);
      { assert [c] + t + y == [c] + (t + y); }
      Unescape([c] + (t + y));
      { UnescapeCons(c, t + y); }
      [c] + Unescape(t + y);
      [c] + (Unescape(t) + Unescape(y));
      ([c] + Unescape(t)) + Unescape(y);
      { if t != [] { assert (t + y)[0] == t[0]; } UnescapeCons(c, t); }
      Unescape([c] + t) + Unescape(y);
    }
  }

  /** A character that does not start a backslash-n is kept. */
  lemma {:induction false} UnescapeCons(c: char, t: string)
    requires !(c == '\\' && t != [] && t[0] == 'n')
    ensures Unescape([c] + t) == [c] + Unescape(t)
  {
    assert ([c] + t)[1..] == t;
  }

  /** A leading backslash-n becomes a line feed. */
  lemma {:induction false} UnescapeHead(pair: string, t: string)
    requires pair == BACKSLASH_N
    ensures Unescape(pair + t) == ['\n'] + Unescape(t)
  {
    assert (pair + t)[2..] == t;
  }

  /** A backslash-n after text without one (and not ending in a backslash) becomes a line feed in place. */
  lemma {:induction false} UnescapePair(a: string, b: string)
    requires NoEscape(a) && (a == [] || a[|a| - 1] != '\\')
    ensures Unescape(a + BACKSLASH_N + b) == a + "\n" + Unescape(b)
  {
    assert a + BACKSLASH_N + b == a + (BACKSLASH_N + b);
    UnescapeConcat(a, BACKSLASH_N + b);
    UnescapeIdentity(a);
    assert (BACKSLASH_N + b)[2..] == b;
  }

  /** A string without backslash-n comes back unchanged. */
  lemma {:induction false} UnescapeIdentity(s: string)
    requires NoEscape(s)
    ensures Unescape(s) == s
  {
    if s != [] {
      assert !(|s| >= 2 && s[0] == '\\' && s[1] == 'n');
      NoEscapeTail(s);
      UnescapeIdentity(s[1..]);
    }
  }

  lemma {:induction false} NoEscapeTail(s: string)
    requires s != [] && NoEscape(s)
    ensures NoEscape(s[1..])
  {
    forall i | 0 <= i < |s[1..]| - 1 ensures !(s[1..][i] == '\\' && s[1..][i + 1] == 'n') {
      assert s[1..][i] == s[i + 1] && s[1..][i + 1] == s[i + 2];
    }
  }

  /** The recursive walk over `Object.keys`: strings rewritten, tables and arrays entered, other values kept. */
  function FindLineBreaks(t: Toml): (r: Toml)
    ensures t.TStr? <==> r.TStr?
    ensures t.TTable? <==> r.TTable?
    ensures t.TArray? <==> r.TArray?
    ensures t.TAtom? ==> r == t
    ensures t.TTable? ==> |r.entries| == |t.entries|
    ensures t.TTable? ==> forall i :: 0 <= i < |t.entries| ==> r.entries[i].key == t.entries[i].key
    ensures t.TArray? ==> |r.items| == |t.items|
  {
    match t
    case TStr(s) => TStr(Unescape(s))
    case TTable(es) =>
      TTable(seq(|es|, i requires 0 <= i < |es| => Entry(es[i].key, FindLineBreaks(es[i].value))))
    case TArray(xs) => TArray(seq(|xs|, i requires 0 <= i < |xs| => FindLineBreaks(xs[i])))
    case TAtom(_) => t
  }

  /** Every string at any depth has no backslash-n. */
  ghost predicate Unescaped(t: Toml) {
    match t
    case TStr(s) => NoEscape(s)
    case TTable(es) => forall i :: 0 <= i < |es| ==> Unescaped(es[i].value)
    case TArray(xs) => forall i :: 0 <= i < |xs| ==> Unescaped(xs[i])
    case TAtom(_) => true
  }

  /** After the walk no string anywhere in the document holds backslash-n. */
  lemma {:induction false} FindLineBreaksUnescapes(t: Toml)
    ensures Unescaped(FindLineBreaks(t))
  {
    match t
    case TStr(s) => UnescapeNoEscape(s);
    case TTable(es) =>
      forall i | 0 <= i < |es| ensures Unescaped(FindLineBreaks(t).entries[i].value) {
        FindLineBreaksUnescapes(es[i].value);
      }
    case TArray(xs) =>
      forall i | 0 <= i < |xs| ensures Unescaped(FindLineBreaks(t).items[i]) {
        FindLineBreaksUnescapes(xs[i]);
      }
    case TAtom(_) =>
  }

  /** A document with no backslash-n anywhere is left as it is. */
  lemma {:induction false} FindLineBreaksIdentity(t: Toml)
    requires Unescaped(t)
    ensures FindLineBreaks(t) == t
  {
    match t
    case TStr(s) => UnescapeIdentity(s);
    case TTable(es) =>
      forall i | 0 <= i < |es| ensures FindLineBreaks(es[i].value) == es[i].value {
        FindLineBreaksIdentity(es[i].value);
      }
      assert FindLineBreaks(t).entries == es;
    case TArray(xs) =>
      forall i | 0 <= i < |xs| ensures FindLineBreaks(xs[i]) == xs[i] {
        FindLineBreaksIdentity(xs[i]);
      }
      assert FindLineBreaks(t).items == xs;
    case TAtom(_) =>
  }

  /** Running the walk twice gives what running it once does. */
  lemma {:induction false} FindLineBreaksIdempotent(t: Toml)
    ensures FindLineBreaks(FindLineBreaks(t)) == FindLineBreaks(t)
  {
    FindLineBreaksUnescapes(t);
    FindLineBreaksIdentity(FindLineBreaks(t));
  }
}
