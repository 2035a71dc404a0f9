/**
 The parser for the `tags` query parameter of the filter-by-features request:
 the text is split on `'+'` (with the semantics of JavaScript's
 `String.prototype.split` on a one-character separator) and every `'-'` inside
 a segment becomes `'_'`, the word separator the catalog stores feature tags with.
 */
module Tags {

  /** Separates tags in the query text. */
  const Plus: char := '+'
  /** Word separator callers may use inside a tag. */
  const Dash: char := '-'
  /** Word separator stored feature tags use. */
  const Underscore: char := '_'

  /** Number of occurrences of `c` in `s`. */
  function Count(s: string, c: char): nat
  {
    if |s| == 0 then 0 else (if s[0] == c then 1 else 0) + Count(s[1..], c)
  }

  /** The parts written one after another with `sep` between neighbours (JavaScript's `Array.prototype.join`). */
  function Join(parts: seq<string>, sep: char): string
  {
    if |parts| == 0 then ""
    else if |parts| == 1 then parts[0]
    else parts[0] + [sep] + Join(parts[1..], sep)
  }

  /** True when no part contains `sep`. */
  predicate Unseparated(parts: seq<string>, sep: char)
  {
    forall i :: 0 <= i < |parts| ==> sep !in parts[i]
  }

  /**
   The segments of `s` between occurrences of `sep`, as JavaScript's
   `s.split(sep)` returns them: one more segment than there are separators,
   empty segments kept, and joining them back gives `s`.
   */
  function Split(s: string, sep: char): (parts: seq<string>)
    ensures |parts| == Count(s, sep) + 1
    ensures Unseparated(parts, sep)
    ensures Join(parts, sep) == s
    decreases |s|
  {
    if |s| == 0 then [""]
    else
      var rest := Split(s[1..], sep);
      if s[0] == sep then
        assert ([""] + rest)[1..] == rest;
        [""] + rest
      else
        var parts := [[s[0]] + rest[0]] + rest[1..];
        assert parts[1..] == rest[1..];
        assert |rest| > 1 ==> Join(rest, sep) == rest[0] + [sep] + Join(rest[1..], sep);
        assert s == [s[0]] + s[1..];
        parts
  }

  /** One character with `'-'` replaced by `'_'`. */
  function Undash(c: char): char
  {
    if c == Dash then Underscore else c
  }

  /** `s` with every `'-'` replaced by `'_'` (JavaScript's `s.replace(/-/g, '_')`). */
  function ReplaceDashes(s: string): (r: string)
    ensures |r| == |s|
    ensures forall i :: 0 <= i < |s| ==> r[i] == Undash(s[i])
    ensures Dash !in r
  {
    if |s| == 0 then "" else [Undash(s[0])] + ReplaceDashes(s[1..])
  }

  /** `ReplaceDashes` applied to every segment, in order. */
  function ReplaceDashesEach(parts: seq<string>): (r: seq<string>)
    ensures |r| == |parts|
    ensures forall i :: 0 <= i < |parts| ==> r[i] == ReplaceDashes(parts[i])
  {
    if |parts| == 0 then [] else [ReplaceDashes(parts[0])] + ReplaceDashesEach(parts[1..])
  }

  /**
   The feature list the filter request queries with: one tag per
   `'+'`-separated segment, in order, with dashes turned into underscores. The
   contract pins the result down completely (see `ParseTagsUnique`): joining
   the tags with `'+'` gives the query text with its dashes replaced, and no
   tag holds a `'+'` or a `'-'`.
   */
  function ParseTags(text: string): (tags: seq<string>)
    ensures |tags| == Count(text, Plus) + 1
    ensures Join(tags, Plus) == ReplaceDashes(text)
    ensures Unseparated(tags, Plus) && Unseparated(tags, Dash)
  {
    var segments := Split(text, Plus);
    ReplaceDashesLeavesPlus(segments);
    JoinReplaceDashes(segments, Plus);
    ReplaceDashesEach(segments)
  }

  /** Replacing dashes distributes over concatenation. */
  lemma ReplaceDashesAppend(a: string, b: string)
    ensures ReplaceDashes(a + b) == ReplaceDashes(a) + ReplaceDashes(b)
  {
  }

  /** Segments free of `'+'` stay free of it once their dashes are replaced. */
  lemma ReplaceDashesLeavesPlus(parts: seq<string>)
    requires Unseparated(parts, Plus)
    ensures Unseparated(ReplaceDashesEach(parts), Plus)
  {
  }

  /** Replacing dashes segment by segment and then joining with a separator other than `'-'` is the same as joining first. */
  lemma {:induction false} JoinReplaceDashes(parts: seq<string>, sep: char)
    requires sep != Dash
    ensures Join(ReplaceDashesEach(parts), sep) == ReplaceDashes(Join(parts, sep))
    decreases |parts|
  {
    if |parts| == 0 {
    } else if |parts| == 1 {
      assert ReplaceDashesEach(parts) == [ReplaceDashes(parts[0])];
    } else {
      var r := ReplaceDashesEach(parts);
      assert r[1..] == ReplaceDashesEach(parts[1..]);
      JoinReplaceDashes(parts[1..], sep);
      ReplaceDashesAppend(parts[0] + [sep], Join(parts[1..], sep));
      ReplaceDashesAppend(parts[0], [sep]);
      assert ReplaceDashes([sep]) == [sep];
    }
  }

  /** Position of the first `sep` in `w`. */
  function FirstIndex(w: string, sep: char): (k: nat)
    requires sep in w
    ensures k < |w| && w[k] == sep && sep !in w[..k]
  {
    if w[0] == sep then 0 else 1 + FirstIndex(w[1..], sep)
  }

  /** The first separator in `x + [sep] + u` follows `x` when `x` holds none. */
  lemma {:induction false} FirstIndexAfter(x: string, u: string, sep: char)
    requires sep !in x
    ensures FirstIndex(x + [sep] + u, sep) == |x|
    decreases |x|
  {
    if |x| > 0 {
      assert (x + [sep] + u)[1..] == x[1..] + [sep] + u;
      assert x[0] in x;
      FirstIndexAfter(x[1..], u, sep);
    }
  }

  /** Two separator-free words followed by the separator agree up to it. */
  lemma FirstSegment(x: string, u: string, y: string, v: string, sep: char)
    requires sep !in x && sep !in y
    requires x + [sep] + u == y + [sep] + v
    ensures x == y && u == v
  {
    var w := x + [sep] + u;
    FirstIndexAfter(x, u, sep);
    FirstIndexAfter(y, v, sep);
    assert x == w[..|x|] == y;
    assert u == w[|x| + 1..] == v;
  }

  /** A non-empty list of separator-free parts has the separator in its join exactly when it has more than one part. */
  lemma JoinHasSeparator(parts: seq<string>, sep: char)
    requires |parts| >= 1 && Unseparated(parts, sep)
    ensures sep in Join(parts, sep) <==> |parts| > 1
  {
  }

  /** Joining non-empty lists of separator-free parts is injective: the parts can be read back from the join. */
  lemma {:induction false} JoinInjective(a: seq<string>, b: seq<string>, sep: char)
    requires |a| >= 1 && |b| >= 1
    requires Unseparated(a, sep) && Unseparated(b, sep)
    requires Join(a, sep) == Join(b, sep)
    ensures a == b
    decreases |a|
  {
    JoinHasSeparator(a, sep);
    JoinHasSeparator(b, sep);
    if |a| > 1 {
      assert sep !in a[0] && sep !in b[0];
      FirstSegment(a[0], Join(a[1..], sep), b[0], Join(b[1..], sep), sep);
      assert Unseparated(a[1..], sep) by {
        forall i | 0 <= i < |a[1..]| ensures sep !in a[1..][i] { assert a[1..][i] == a[i + 1]; }
      }
      assert Unseparated(b[1..], sep) by {
        forall i | 0 <= i < |b[1..]| ensures sep !in b[1..][i] { assert b[1..][i] == b[i + 1]; }
      }
      JoinInjective(a[1..], b[1..], sep);
      assert a == [a[0]] + a[1..] && b == [b[0]] + b[1..];
    }
  }

  /** `Split` inverts `Join` on separator-free parts. */
  lemma SplitJoin(parts: seq<string>, sep: char)
    requires |parts| >= 1 && Unseparated(parts, sep)
    ensures Split(Join(parts, sep), sep) == parts
  {
    JoinInjective(Split(Join(parts, sep), sep), parts, sep);
  }

  /**
   The tag list is the only list of `'+'`- and `'-'`-free tags whose `'+'`-join
   is the query text with its dashes replaced.
   */
  lemma ParseTagsUnique(text: string, tags: seq<string>)
    requires |tags| >= 1 && Unseparated(tags, Plus) && Unseparated(tags, Dash)
    requires Join(tags, Plus) == ReplaceDashes(text)
    ensures tags == ParseTags(text)
  {
    JoinInjective(tags, ParseTags(text), Plus);
  }

  /** Each tag is its query segment with dashes replaced: the i-th tag comes from the i-th `'+'`-separated segment. */
  lemma ParseTagsSegments(text: string)
    ensures |ParseTags(text)| == |Split(text, Plus)|
    ensures forall i :: 0 <= i < |Split(text, Plus)| ==> ParseTags(text)[i] == ReplaceDashes(Split(text, Plus)[i])
  {
  }

  /** A query without dashes parses back to the very segments it was joined from. */
  lemma ParseJoinedTags(tags: seq<string>)
    requires |tags| >= 1 && Unseparated(tags, Plus) && Unseparated(tags, Dash)
    ensures ParseTags(Join(tags, Plus)) == tags
  {
    var text := Join(tags, Plus);
    assert ReplaceDashes(text) == text by {
      forall i | 0 <= i < |text| ensures ReplaceDashes(text)[i] == text[i] {
        JoinHasNoDash(tags);
        assert text[i] != Dash;
      }
    }
    ParseTagsUnique(text, tags);
  }

  /** Joining dash-free tags with `'+'` gives dash-free text. */
  lemma {:induction false} JoinHasNoDash(tags: seq<string>)
    requires Unseparated(tags, Dash)
    ensures Dash !in Join(tags, Plus)
    decreases |tags|
  {
    if |tags| > 1 {
      assert Unseparated(tags[1..], Dash) by {
        forall i | 0 <= i < |tags[1..]| ensures Dash !in tags[1..][i] { assert tags[1..][i] == tags[i + 1]; }
      }
      JoinHasNoDash(tags[1..]);
      assert Dash !in tags[0];
    }
  }
}
