/**
 * The JavaScript string built-ins the publication parser relies on:
 * `trim`, `split` with a one-character separator, `startsWith`, `includes`,
 * `replace(/[{}]/g, '')` and `replace(/,$/g, '')`.
 */
module JsString {
  import opened Wrappers

  /**
   * The code points `String.prototype.trim` removes: ECMAScript's WhiteSpace
   * (tab, vertical tab, form feed, zero-width no-break space and the Unicode
   * space separators Zs) and LineTerminator (LF, CR, LS, PS).
   */
  predicate IsWhitespace(c: char) {
    c == '\t' || c == '\n' || c == '\U{000B}' || c == '\U{000C}' || c == '\r'
    || c == ' ' || c == '\U{00A0}' || c == '\U{1680}'
    || ('\U{2000}' <= c <= '\U{200A}')
    || c == '\U{2028}' || c == '\U{2029}' || c == '\U{202F}' || c == '\U{205F}'
    || c == '\U{3000}' || c == '\U{FEFF}'
  }

  predicate AllWhitespace(s: string) {
    forall k :: 0 <= k < |s| ==> IsWhitespace(s[k])
  }

  /** Neither starts nor ends with white space. */
  predicate IsTrimmed(s: string) {
    s == [] || (!IsWhitespace(s[0]) && !IsWhitespace(s[|s| - 1]))
  }

  /** Drops the leading white space: the result is the longest suffix that does not start with it. */
  function TrimStart(s: string): (r: string)
    ensures |r| <= |s| && r == s[|s| - |r|..]
    ensures AllWhitespace(s[..|s| - |r|])
    ensures r == [] || !IsWhitespace(r[0])
  {
    if s != [] && IsWhitespace(s[0]) then
      var r := TrimStart(s[1..]);
      assert s[..|s| - |r|] == [s[0]] + s[1..][..|s| - 1 - |r|];
      r
    else
      s
  }

  /** Drops the trailing white space: the result is the longest prefix that does not end with it. */
  function TrimEnd(s: string): (r: string)
    ensures |r| <= |s| && r == s[..|r|]
    ensures AllWhitespace(s[|r|..])
    ensures r == [] || !IsWhitespace(r[|r| - 1])
  {
    if s != [] && IsWhitespace(s[|s| - 1]) then
      var r := TrimEnd(s[..|s| - 1]);
      assert s[..|s| - 1][..|r|] == s[..|r|];
      assert s[|r|..] == s[..|s| - 1][|r|..] + [s[|s| - 1]];
      r
    else
      s
  }

  /** `s.trim()`. */
  function Trim(s: string): (r: string)
    ensures IsTrimmed(r)
    ensures r == [] <==> AllWhitespace(s)
    ensures forall c :: c in r ==> c in s
  {
    var t := TrimStart(s);
    var r := TrimEnd(t);
    assert r != [] ==> r[0] == t[0];
    assert t == [] ==> s[..|s| - |t|] == s;
    r
  }

  lemma {:induction false} TrimStartSkips(a: string, t: string)
    requires AllWhitespace(a)
    requires t == [] || !IsWhitespace(t[0])
    ensures TrimStart(a + t) == t
  {
    if a == [] {
      assert a + t == t;
    } else {
      assert (a + t)[1..] == a[1..] + t;
      TrimStartSkips(a[1..], t);
    }
  }

  lemma {:induction false} TrimEndSkips(t: string, b: string)
    requires AllWhitespace(b)
    requires t == [] || !IsWhitespace(t[|t| - 1])
    ensures TrimEnd(t + b) == t
  {
    if b == [] {
      assert t + b == t;
    } else {
      assert (t + b)[..|t + b| - 1] == t + b[..|b| - 1];
      TrimEndSkips(t, b[..|b| - 1]);
    }
  }

  /**
   * `trim` is determined by what it keeps: surrounding any trimmed text by
   * white space on both sides and trimming gives that text back.
   */
  lemma TrimUnique(a: string, m: string, b: string)
    requires AllWhitespace(a) && AllWhitespace(b) && IsTrimmed(m)
    ensures Trim(a + m + b) == m
  {
    if m == [] {
      assert a + m + b == a + b;
      assert AllWhitespace(a + b) by {
        forall k | 0 <= k < |a + b| ensures IsWhitespace((a + b)[k]) {
          if k < |a| { assert (a + b)[k] == a[k]; } else { assert (a + b)[k] == b[k - |a|]; }
        }
      }
    } else {
      assert a + m + b == a + (m + b);
      TrimStartSkips(a, m + b);
      TrimEndSkips(m, b);
    }
  }

  /** `s.indexOf(c)`, with `None` for -1. */
  function IndexOf(s: string, c: char): (r: Option<nat>)
    ensures r.None? <==> c !in s
    ensures r.Some? ==> r.value < |s| && s[r.value] == c && c !in s[..r.value]
  {
    if s == [] then None
    else if s[0] == c then Some(0)
    else match IndexOf(s[1..], c)
      case None => None
      case Some(i) =>
        assert s[..i + 1] == [s[0]] + s[1..][..i];
        Some(i + 1)
  }

  /** The inverse of `Split`: the fragments glued back together with the separator between them. */
  function Join(parts: seq<string>, d: char): string
    requires |parts| >= 1
  {
    if |parts| == 1 then parts[0] else parts[0] + [d] + Join(parts[1..], d)
  }

  /**
   * `s.split(d)` for a one-character separator: the maximal separator-free
   * fragments of `s`, in order; one more fragment than there are separators.
   */
  function Split(s: string, d: char): (parts: seq<string>)
    ensures |parts| >= 1
    ensures forall k :: 0 <= k < |parts| ==> d !in parts[k]
    ensures Join(parts, d) == s
    decreases |s|
  {
    match IndexOf(s, d)
    case None => [s]
    case Some(i) =>
      var rest := Split(s[i + 1..], d);
      var parts := [s[..i]] + rest;
      assert parts[1..] == rest;
      assert s == s[..i] + [d] + s[i + 1..];
      parts
  }

  lemma IndexOfFirst(s: string, c: char, i: nat)
    requires i < |s| && s[i] == c && c !in s[..i]
    ensures IndexOf(s, c) == Some(i)
  {
  }

  /** Splitting at the first separator: the text before it, then the fragments of the text after it. */
  lemma SplitAt(s: string, d: char, i: nat)
    requires i < |s| && s[i] == d && d !in s[..i]
    ensures Split(s, d) == [s[..i]] + Split(s[i + 1..], d)
  {
    IndexOfFirst(s, d, i);
  }

  lemma {:induction false} JoinAppend(p: seq<string>, q: seq<string>, d: char)
    requires |p| >= 1 && |q| >= 1
    ensures Join(p + q, d) == Join(p, d) + [d] + Join(q, d)
  {
    if |p| == 1 {
      assert (p + q)[1..] == q;
    } else {
      assert (p + q)[1..] == p[1..] + q;
      JoinAppend(p[1..], q, d);
    }
  }

  /** Gluing with a separator adds no character but the separator. */
  lemma {:induction false} JoinAvoids(parts: seq<string>, d: char, c: char)
    requires |parts| >= 1 && c != d
    requires forall k :: 0 <= k < |parts| ==> c !in parts[k]
    ensures c !in Join(parts, d)
  {
    if |parts| > 1 {
      JoinAvoids(parts[1..], d, c);
    }
  }

  /** Splitting what `Join` glued gives the fragments back, whenever no fragment holds the separator. */
  lemma {:induction false} SplitJoin(parts: seq<string>, d: char)
    requires |parts| >= 1
    requires forall k :: 0 <= k < |parts| ==> d !in parts[k]
    ensures Split(Join(parts, d), d) == parts
  {
    if |parts| == 1 {
    } else {
      var s := Join(parts, d);
      var p0 := parts[0];
      var tail := Join(parts[1..], d);
      assert s == p0 + [d] + tail;
      assert s[..|p0|] == p0;
      assert s[|p0| + 1..] == tail;
      assert d !in s[..|p0|];
      SplitAt(s, d, |p0|);
      assert Split(s, d) == [p0] + Split(tail, d);
      SplitJoin(parts[1..], d);
      assert parts == [p0] + parts[1..];
    }
  }

  /** A separator splits the text into the fragments of the part before it followed by those of the part after it. */
  lemma SplitConcat(a: string, b: string, d: char)
    ensures Split(a + [d] + b, d) == Split(a, d) + Split(b, d)
  {
    var pa, pb := Split(a, d), Split(b, d);
    JoinAppend(pa, pb, d);
    forall k | 0 <= k < |pa + pb| ensures d !in (pa + pb)[k] {
      if k < |pa| { assert (pa + pb)[k] == pa[k]; } else { assert (pa + pb)[k] == pb[k - |pa|]; }
    }
    SplitJoin(pa + pb, d);
  }

  /**
   * `Split(s, d)[0]` is the text before the first separator: a prefix of `s`
   * that holds no separator and is followed by one or by the end of `s`.
   */
  lemma SplitHead(s: string, d: char)
    ensures var h := Split(s, d)[0];
      |h| <= |s| && h == s[..|h|] && d !in h && (|h| == |s| || s[|h|] == d)
  {
  }

  /** The first fragment stops at the first separator, or at the end when there is none. */
  lemma SplitHeadAt(s: string, d: char, k: nat)
    requires k <= |s| && d !in s[..k] && (k == |s| || s[k] == d)
    ensures Split(s, d)[0] == s[..k]
  {
    SplitHead(s, d);
    forall m | 0 <= m < k ensures s[m] != d {
      assert s[..k][m] == s[m];
    }
  }

  /** `s.startsWith(prefix)`: the text begins with the prefix, character by character. */
  predicate StartsWith(s: string, prefix: string)
    ensures StartsWith(s, prefix) <==> |prefix| <= |s| && forall i :: 0 <= i < |prefix| ==> s[i] == prefix[i]
  {
    |prefix| <= |s| && s[..|prefix|] == prefix
  }

  predicate OccursAt(s: string, sub: string, i: nat) {
    i + |sub| <= |s| && s[i..i + |sub|] == sub
  }

  /**
   * `s.includes(sub)`: the search finds `sub` at some position of `s`. The
   * empty text is included in every text, and no text includes a longer one.
   */
  predicate Includes(s: string, sub: string)
    ensures sub == [] ==> Includes(s, sub)
    ensures Includes(s, sub) ==> |sub| <= |s|
  {
    assert sub == [] ==> OccursAt(s, sub, 0);
    exists i: nat :: i <= |s| && OccursAt(s, sub, i)
  }

  /** A text shorter than `sub` does not include it. */
  lemma IncludesShort(s: string, sub: string)
    requires |s| < |sub|
    ensures !Includes(s, sub)
  {
  }

  /** A text includes each of its prefixes. */
  lemma StartsIncludes(s: string, prefix: string)
    ensures StartsWith(s, prefix) ==> Includes(s, prefix)
  {
    if StartsWith(s, prefix) {
      assert OccursAt(s, prefix, 0);
    }
  }

  /** Text that includes `sub` still does once more text surrounds it. */
  lemma IncludesWithin(a: string, t: string, b: string, sub: string)
    requires Includes(t, sub)
    ensures Includes(a + t + b, sub)
  {
    var i: nat :| i <= |t| && OccursAt(t, sub, i);
    var s := a + t + b;
    assert s[|a| + i..|a| + i + |sub|] == t[i..i + |sub|];
    assert OccursAt(s, sub, |a| + i);
  }

  /** An occurrence of `sub` cannot straddle a character that `sub` does not contain. */
  lemma IncludesSplit(x: string, c: char, y: string, sub: string)
    requires c !in sub
    ensures Includes(x + [c] + y, sub) ==> Includes(x, sub) || Includes(y, sub)
  {
    var s := x + [c] + y;
    if Includes(s, sub) {
      var i: nat :| i <= |s| && OccursAt(s, sub, i);
      assert s[|x|] == c;
      forall k | 0 <= k < |sub| ensures s[i + k] == sub[k] {
        assert s[i..i + |sub|][k] == s[i + k];
      }
      if i + |sub| <= |x| {
        assert x[i..i + |sub|] == s[i..i + |sub|];
        assert OccursAt(x, sub, i);
      } else if i > |x| {
        assert y == s[|x| + 1..];
        assert y[i - |x| - 1..i - |x| - 1 + |sub|] == s[i..i + |sub|];
        assert OccursAt(y, sub, i - |x| - 1);
      }
    }
  }

  /** `s.replace(/[{}]/g, '')`: no brace is left, and nothing else is added. */
  function RemoveBraces(s: string): (r: string)
    ensures '{' !in r && '}' !in r
    ensures forall c :: c in r ==> c in s
  {
    if s == [] then []
    else (if s[0] == '{' || s[0] == '}' then [] else [s[0]]) + RemoveBraces(s[1..])
  }

  /** Brace removal keeps every other character with its multiplicity. */
  lemma {:induction false} RemoveBracesKeeps(s: string, c: char)
    requires c != '{' && c != '}'
    ensures multiset(RemoveBraces(s))[c] == multiset(s)[c]
  {
    if s != [] {
      RemoveBracesKeeps(s[1..], c);
      var head := if s[0] == '{' || s[0] == '}' then [] else [s[0]];
      assert RemoveBraces(s) == head + RemoveBraces(s[1..]);
      assert s == [s[0]] + s[1..];
      assert multiset(s) == multiset([s[0]]) + multiset(s[1..]);
      assert multiset(RemoveBraces(s)) == multiset(head) + multiset(RemoveBraces(s[1..]));
    }
  }

  /** Removing braces from text that has none changes nothing. */
  lemma {:induction false} RemoveBracesNone(s: string)
    requires '{' !in s && '}' !in s
    ensures RemoveBraces(s) == s
  {
    if s != [] {
      RemoveBracesNone(s[1..]);
      assert s == [s[0]] + s[1..];
    }
  }

  /** Brace removal works character by character, so it distributes over concatenation. */
  lemma {:induction false} RemoveBracesAppend(a: string, b: string)
    ensures RemoveBraces(a + b) == RemoveBraces(a) + RemoveBraces(b)
  {
    if a != [] {
      assert (a + b)[1..] == a[1..] + b;
      RemoveBracesAppend(a[1..], b);
    } else {
      assert a + b == b;
    }
  }

  /** `s.replace(/,$/g, '')`: `$` without the `m` flag matches only at the end, so at most one comma goes. */
  function StripTrailingComma(s: string): (r: string)
    ensures s == r || s == r + [',']
    ensures r != s <==> (s != [] && s[|s| - 1] == ',')
  {
    if s != [] && s[|s| - 1] == ',' then s[..|s| - 1] else s
  }
}
