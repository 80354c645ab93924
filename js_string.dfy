/** The JavaScript string operations the page-link resolver is built from:
    `indexOf`, `startsWith`, `split` with a string separator, `split` with a
    one-character class such as `/[?#]/`, and `replace` with a string pattern
    (including the `$`-patterns of its replacement string). Strings are
    sequences of UTF-16 code units in JavaScript; here they are `seq<char>`. */
module JsString {

  datatype Option<T> = None | Some(value: T)

  /** `p` occurs in `s` starting at offset `j`. */
  predicate OccursAt(s: string, p: string, j: int)
  {
    0 <= j && j + |p| <= |s| && s[j..j + |p|] == p
  }

  ghost predicate Contains(s: string, p: string)
  {
    exists j :: OccursAt(s, p, j)
  }

  /** `s.startsWith(p)`; also `/^p/.test(s)` for a pattern without metacharacters. */
  predicate StartsWith(s: string, p: string)
  {
    |p| <= |s| && s[..|p|] == p
  }

  /** The first occurrence of `p` in `s` at or after `from`. */
  function IndexOfFrom(s: string, p: string, from: nat): (r: Option<nat>)
    requires from <= |s|
    ensures r.Some? ==> from <= r.value && OccursAt(s, p, r.value)
    ensures r.Some? ==> forall j :: from <= j < r.value ==> !OccursAt(s, p, j)
    ensures r.None? ==> forall j :: from <= j ==> !OccursAt(s, p, j)
    decreases |s| - from
  {
    if from + |p| > |s| then None
    else if s[from..from + |p|] == p then Some(from)
    else IndexOfFrom(s, p, from + 1)
  }

  /** `s.indexOf(p)`, with `None` for JavaScript's -1. */
  function IndexOf(s: string, p: string): (r: Option<nat>)
    ensures r.Some? ==> OccursAt(s, p, r.value) && forall j :: 0 <= j < r.value ==> !OccursAt(s, p, j)
    ensures r.None? ==> forall j :: !OccursAt(s, p, j)
  {
    IndexOfFrom(s, p, 0)
  }

  /** `s.split(sep)` for a non-empty string separator: the pieces between the
      non-overlapping occurrences of `sep`, found left to right. */
  function Split(s: string, sep: string): (parts: seq<string>)
    requires sep != []
    ensures |parts| >= 1
    decreases |s|
  {
    match IndexOf(s, sep)
    case None => [s]
    case Some(k) => [s[..k]] + Split(s[k + |sep|..], sep)
  }

  /** `parts.join(sep)`. */
  function Join(parts: seq<string>, sep: string): (s: string)
  {
    if |parts| == 0 then []
    else if |parts| == 1 then parts[0]
    else parts[0] + sep + Join(parts[1..], sep)
  }

  lemma JoinCons(head: string, tail: seq<string>, sep: string)
    requires |tail| >= 1
    ensures Join([head] + tail, sep) == head + sep + Join(tail, sep)
  {
    assert ([head] + tail)[1..] == tail;
  }

  /** One step of a split: the piece before the first separator, then the
      split of the rest. */
  lemma SplitStep(s: string, sep: string, k: nat)
    requires sep != [] && IndexOf(s, sep) == Some(k)
    ensures k + |sep| <= |s|
    ensures Split(s, sep) == [s[..k]] + Split(s[k + |sep|..], sep)
    ensures s == s[..k] + sep + s[k + |sep|..]
  {
    assert OccursAt(s, sep, k);
    SliceAround(s, k, k + |sep|);
  }

  /** A string is its text before `i`, between `i` and `j`, and after `j`. */
  lemma SliceAround(s: string, i: nat, j: nat)
    requires i <= j <= |s|
    ensures s == s[..i] + s[i..j] + s[j..]
  {
    assert s[..j] == s[..i] + s[i..j];
    assert s == s[..j] + s[j..];
  }

  /** Splitting and joining with the same separator gives back the string. */
  lemma {:induction false} SplitJoin(s: string, sep: string)
    requires sep != []
    ensures Join(Split(s, sep), sep) == s
    decreases |s|
  {
    var r := IndexOf(s, sep);
    if r.Some? {
      var k := r.value;
      SplitStep(s, sep, k);
      var rest := s[k + |sep|..];
      SplitJoin(rest, sep);
      JoinCons(s[..k], Split(rest, sep), sep);
    } else {
      assert Split(s, sep) == [s];
    }
  }

  /** No piece of a split contains the separator. */
  lemma {:induction false} SplitPiecesFree(s: string, sep: string, i: nat)
    requires sep != [] && i < |Split(s, sep)|
    ensures !Contains(Split(s, sep)[i], sep)
    decreases |s|
  {
    var r := IndexOf(s, sep);
    if r.None? {
      assert Split(s, sep) == [s];
    } else {
      var k := r.value;
      SplitStep(s, sep, k);
      if i == 0 {
        PrefixBeforeFirstFree(s, sep, k);
      } else {
        SplitPiecesFree(s[k + |sep|..], sep, i - 1);
      }
    }
  }

  /** The text before the first occurrence of `sep` does not contain it. */
  lemma PrefixBeforeFirstFree(s: string, sep: string, k: nat)
    requires sep != [] && IndexOf(s, sep) == Some(k)
    ensures !Contains(s[..k], sep)
  {
    forall j | OccursAt(s[..k], sep, j) ensures false {
      assert s[..k][j..j + |sep|] == s[j..j + |sep|];
      assert OccursAt(s, sep, j);
    }
  }

  /** For a one-character separator, an occurrence is just that character. */
  lemma OccursAtChar(s: string, c: char, j: int)
    ensures OccursAt(s, [c], j) <==> 0 <= j < |s| && s[j] == c
  {
    if 0 <= j < |s| {
      assert s[j..j + 1] == [s[j]];
    }
  }

  /** The first piece of `s.split(c)` is the longest prefix of `s` without `c`,
      and when `c` occurs the second piece is the first piece of what follows it. */
  lemma SplitCharHead(s: string, c: char)
    ensures var parts := Split(s, [c]);
      && |parts[0]| <= |s| && parts[0] == s[..|parts[0]|]
      && c !in parts[0]
      && (|parts[0]| == |s| || s[|parts[0]|] == c)
      && (|parts[0]| < |s| ==> |parts| >= 2 && parts[1] == Split(s[|parts[0]| + 1..], [c])[0])
  {
    var parts := Split(s, [c]);
    match IndexOf(s, [c])
    case None =>
      forall j | 0 <= j < |s| ensures s[j] != c {
        OccursAtChar(s, c, j);
      }
    case Some(k) =>
      OccursAtChar(s, c, k);
      forall j | 0 <= j < k ensures s[j] != c {
        OccursAtChar(s, c, j);
      }
      SplitStep(s, [c], k);
  }

  /** The first index at or after `from` whose character is in `cs`. */
  function IndexOfAnyFrom(s: string, cs: set<char>, from: nat): (r: Option<nat>)
    requires from <= |s|
    ensures r.Some? ==> from <= r.value < |s| && s[r.value] in cs
    ensures r.Some? ==> forall j :: from <= j < r.value ==> s[j] !in cs
    ensures r.None? ==> forall j :: from <= j < |s| ==> s[j] !in cs
    decreases |s| - from
  {
    if from == |s| then None
    else if s[from] in cs then Some(from)
    else IndexOfAnyFrom(s, cs, from + 1)
  }

  /** `s.split(/[..]/)` for a regular expression that is a class of single
      characters `cs`: the pieces between the characters of `cs`. */
  function SplitOnAny(s: string, cs: set<char>): (parts: seq<string>)
    ensures |parts| >= 1
    decreases |s|
  {
    match IndexOfAnyFrom(s, cs, 0)
    case None => [s]
    case Some(k) => [s[..k]] + SplitOnAny(s[k + 1..], cs)
  }

  /** The first piece of a split on a character class is the longest prefix of
      `s` holding none of its characters. */
  lemma SplitOnAnyHead(s: string, cs: set<char>)
    ensures var head := SplitOnAny(s, cs)[0];
      && |head| <= |s| && head == s[..|head|]
      && (forall i :: 0 <= i < |head| ==> head[i] !in cs)
      && (|head| == |s| || s[|head|] in cs)
  {
  }

  /** `GetSubstitution` of ECMAScript for a string pattern, which has no
      capture groups: in the replacement `template`, `$$` stands for `$`, `$&`
      for the matched text, `` $` `` for the text before the match and `$'` for the
      text after it; any other `$` is literal. */
  function Substitute(matched: string, str: string, position: nat, template: string): (r: string)
    requires position + |matched| <= |str|
    decreases |template|
  {
    if |template| < 2 then template
    else if template[0] == '$' && template[1] == '$' then
      "$" + Substitute(matched, str, position, template[2..])
    else if template[0] == '$' && template[1] == '&' then
      matched + Substitute(matched, str, position, template[2..])
    else if template[0] == '$' && template[1] == '`' then
      str[..position] + Substitute(matched, str, position, template[2..])
    else if template[0] == '$' && template[1] == '\'' then
      str[position + |matched|..] + Substitute(matched, str, position, template[2..])
    else
      [template[0]] + Substitute(matched, str, position, template[1..])
  }

  /** A character other than `$` at the front passes through verbatim. */
  lemma SubstituteCons(matched: string, str: string, position: nat, c: char, template: string)
    requires position + |matched| <= |str|
    requires c != '$'
    ensures Substitute(matched, str, position, [c] + template)
         == [c] + Substitute(matched, str, position, template)
  {
    var t := [c] + template;
    assert t[0] == c && t[1..] == template;
    if template == [] {
      assert t == [c];
    }
  }

  /** A leading stretch without `$` passes through the substitution verbatim. */
  lemma {:induction false} SubstituteLiteralPrefix(matched: string, str: string, position: nat, lit: string, template: string)
    requires position + |matched| <= |str|
    requires '$' !in lit
    ensures Substitute(matched, str, position, lit + template)
         == lit + Substitute(matched, str, position, template)
    decreases |lit|
  {
    if lit == [] {
      assert lit + template == template;
    } else {
      var c, more := lit[0], lit[1..];
      assert lit == [c] + more;
      assert c in lit;
      assert lit + template == [c] + (more + template);
      SubstituteCons(matched, str, position, c, more + template);
      SubstituteLiteralPrefix(matched, str, position, more, template);
    }
  }

  /** A replacement without `$` is inserted verbatim. */
  lemma SubstituteLiteral(matched: string, str: string, position: nat, template: string)
    requires position + |matched| <= |str|
    requires '$' !in template
    ensures Substitute(matched, str, position, template) == template
  {
    SubstituteLiteralPrefix(matched, str, position, template, []);
    assert template + [] == template;
  }

  /** `$&` between two `$`-free stretches becomes the matched text. */
  lemma SubstituteMatch(matched: string, str: string, position: nat, before: string, after: string)
    requires position + |matched| <= |str|
    requires '$' !in before && '$' !in after
    ensures Substitute(matched, str, position, before + "$&" + after) == before + matched + after
  {
    assert before + "$&" + after == before + ("$&" + after);
    SubstituteLiteralPrefix(matched, str, position, before, "$&" + after);
    assert ("$&" + after)[2..] == after;
    SubstituteLiteral(matched, str, position, after);
  }

  /** `s.replace(pattern, replacement)` with a string pattern: only the first
      occurrence of `pattern` is replaced. */
  function Replace(s: string, pattern: string, replacement: string): (r: string)
    ensures !Contains(s, pattern) ==> r == s
  {
    match IndexOf(s, pattern)
    case None => s
    case Some(p) =>
      s[..p] + Substitute(pattern, s, p, replacement) + s[p + |pattern|..]
  }

  /** Replacing a prefix of `s` by a `$`-free string is prefix substitution:
      the first occurrence of a prefix is at offset 0. */
  lemma ReplacePrefix(s: string, prefix: string, replacement: string)
    requires StartsWith(s, prefix)
    requires '$' !in replacement
    ensures Replace(s, prefix, replacement) == replacement + s[|prefix|..]
  {
    assert OccursAt(s, prefix, 0);
    SubstituteLiteral(prefix, s, 0, replacement);
  }
}
