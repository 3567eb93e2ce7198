/** String helpers that PHP's runtime provides: `explode`, `implode`, `basename`, and PCRE's `\s` class. */
module Text {

  /** PCRE's `\s` without the `u` modifier: space, tab, line feed, vertical tab, form feed, carriage return. */
  predicate IsSpace(c: char) {
    c == ' ' || c == '\t' || c == '\n' || c == '\U{B}' || c == '\U{C}' || c == '\r'
  }

  predicate StartsWith(s: string, prefix: string) {
    |prefix| <= |s| && s[..|prefix|] == prefix
  }

  lemma StartsWithAppend(x: string, y: string)
    ensures StartsWith(x + y, x)
  {
    assert (x + y)[..|x|] == x;
  }

  lemma SliceOfSlice(s: string, g: nat, k: nat, p: nat)
    requires g <= k <= p <= |s|
    ensures s[k..p] == s[g..p][k - g..]
  {
  }

  predicate EndsWith(s: string, suffix: string) {
    |suffix| <= |s| && s[|s| - |suffix|..] == suffix
  }

  /** The position of the first `c` in `s`, or `|s|` when there is none. */
  function IndexOf(s: string, c: char): (i: nat)
    ensures i <= |s|
    ensures forall j :: 0 <= j < i ==> s[j] != c
    ensures i < |s| ==> s[i] == c
  {
    if |s| == 0 || s[0] == c then 0 else 1 + IndexOf(s[1..], c)
  }

  /** The length of the longest prefix of `s` made of non-space characters (`[^\s]+` taken greedily). */
  function SpanNonSpace(s: string): (n: nat)
    ensures n <= |s|
    ensures forall j :: 0 <= j < n ==> !IsSpace(s[j])
    ensures n < |s| ==> IsSpace(s[n])
  {
    if |s| == 0 || IsSpace(s[0]) then 0 else 1 + SpanNonSpace(s[1..])
  }

  /** The length of the longest prefix of `s` made of space characters (`\s+` taken greedily). */
  function SpanSpace(s: string): (n: nat)
    ensures n <= |s|
    ensures forall j :: 0 <= j < n ==> IsSpace(s[j])
    ensures n < |s| ==> !IsSpace(s[n])
  {
    if |s| == 0 || !IsSpace(s[0]) then 0 else 1 + SpanSpace(s[1..])
  }

  /** PHP's `implode`: the parts with `sep` between each two of them. */
  function Join(parts: seq<string>, sep: char): string
  {
    if |parts| == 0 then ""
    else if |parts| == 1 then parts[0]
    else parts[0] + [sep] + Join(parts[1..], sep)
  }

  /** PHP's `explode` with a one-character separator, read from the left: a separator closes the
      current piece, any other character extends it; there is always at least one piece. */
  function Split(s: string, sep: char): (parts: seq<string>)
    ensures |parts| >= 1
  {
    if |s| == 0 then [""]
    else
      var rest := Split(s[1..], sep);
      if s[0] == sep then [""] + rest else [[s[0]] + rest[0]] + rest[1..]
  }

  lemma AppendAssoc<T>(x: seq<T>, y: seq<T>, z: seq<T>)
    ensures x + (y + z) == (x + y) + z
  {
  }

  /** Putting a character in front of the first piece puts it in front of the joined text. */
  lemma JoinExtendFirst(c: char, rest: seq<string>, sep: char)
    requires |rest| >= 1
    ensures Join([[c] + rest[0]] + rest[1..], sep) == [c] + Join(rest, sep)
  {
    var parts := [[c] + rest[0]] + rest[1..];
    if |rest| > 1 {
      assert parts[1..] == rest[1..];
      AppendAssoc([c], rest[0], [sep] + Join(rest[1..], sep));
    }
  }

  /** The pieces hold no separator, and joining them with it gives back the text. */
  lemma {:induction false} SplitSpec(s: string, sep: char)
    ensures forall k :: 0 <= k < |Split(s, sep)| ==> sep !in Split(s, sep)[k]
    ensures Join(Split(s, sep), sep) == s
  {
    if |s| > 0 {
      var rest := Split(s[1..], sep);
      SplitSpec(s[1..], sep);
      assert s == [s[0]] + s[1..];
      if s[0] == sep {
        assert ([""] + rest)[1..] == rest;
      } else {
        JoinExtendFirst(s[0], rest, sep);
        assert sep !in [s[0]] + rest[0];
      }
    }
  }

  /** A text without the separator is a single piece. */
  lemma {:induction false} SplitWhole(s: string, sep: char)
    requires sep !in s
    ensures Split(s, sep) == [s]
  {
    if |s| > 0 {
      SplitWhole(s[1..], sep);
      assert s == [s[0]] + s[1..];
    }
  }

  /** A separator in the text splits it into the pieces of its two sides. */
  lemma {:induction false} SplitAppend(a: string, b: string, sep: char)
    ensures Split(a + [sep] + b, sep) == Split(a, sep) + Split(b, sep)
  {
    var s := a + [sep] + b;
    if |a| == 0 {
      assert s == [sep] + b && s[1..] == b;
    } else {
      var a' := a[1..];
      assert s[0] == a[0] && s[1..] == a' + [sep] + b;
      SplitAppend(a', b, sep);
      var left, right := Split(a', sep), Split(b, sep);
      if a[0] == sep {
        AppendAssoc([""], left, right);
      } else {
        assert (left + right)[0] == left[0];
        assert (left + right)[1..] == left[1..] + right;
        AppendAssoc([[a[0]] + left[0]], left[1..], right);
      }
    }
  }

  /** Splitting undoes joining when no part holds the separator. */
  lemma {:induction false} SplitJoin(parts: seq<string>, sep: char)
    requires |parts| >= 1
    requires forall k :: 0 <= k < |parts| ==> sep !in parts[k]
    ensures Split(Join(parts, sep), sep) == parts
  {
    SplitWhole(parts[0], sep);
    if |parts| > 1 {
      SplitAppend(parts[0], Join(parts[1..], sep), sep);
      SplitJoin(parts[1..], sep);
      assert parts == [parts[0]] + parts[1..];
    }
  }

  /** The path with every trailing `/` removed. */
  function TrimTrailingSlashes(p: string): (q: string)
    ensures |q| <= |p| && p[..|q|] == q
    ensures forall j :: |q| <= j < |p| ==> p[j] == '/'
    ensures q == "" || q[|q| - 1] != '/'
  {
    if |p| > 0 && p[|p| - 1] == '/' then TrimTrailingSlashes(p[..|p| - 1]) else p
  }

  /** The position just after the last `/` of `q`, or 0 when it has none. */
  function AfterLastSlash(q: string): (i: nat)
    ensures i <= |q|
    ensures forall j :: i <= j < |q| ==> q[j] != '/'
    ensures i == 0 || q[i - 1] == '/'
  {
    if |q| == 0 then 0
    else if q[|q| - 1] == '/' then |q|
    else AfterLastSlash(q[..|q| - 1])
  }

  /** PHP's `basename`, which `pathinfo($p, PATHINFO_BASENAME)` returns. */
  function Basename(p: string): string
  {
    var q := TrimTrailingSlashes(p);
    q[AfterLastSlash(q)..]
  }

  /** The basename is the longest slash-free tail of the path once its trailing slashes are dropped. */
  lemma BasenameSpec(p: string)
    ensures '/' !in Basename(p)
    ensures var q, b := TrimTrailingSlashes(p), Basename(p);
      |b| <= |q| && q[|q| - |b|..] == b && (|b| == |q| || q[|q| - |b| - 1] == '/')
  {
  }

  /** A name without slashes under a directory has that name as its basename. */
  lemma BasenameOfChild(dir: string, name: string)
    requires |name| > 0 && '/' !in name
    ensures Basename(dir + "/" + name) == name
  {
    var p := dir + "/" + name;
    BasenameSpec(p);
    assert p[|p| - 1] == name[|name| - 1];
    assert TrimTrailingSlashes(p) == p;
    assert p[|dir|] == '/';
    assert p[|p| - |name|..] == name;
  }
}
