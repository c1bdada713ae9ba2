/**
  Shell-style wildcard matching as Python's `fnmatch.fnmatch` does it on a
  POSIX host (no case folding): `*` matches any run of characters, `?` any
  one character, `[...]` one character of a set and `[!...]` one character
  outside it. A `[` without a closing `]` stands for itself, a `]` right
  after `[` or `[!` belongs to the set, `x-y` in a set is a range, a `-`
  first or last in a set stands for itself, and a range whose ends are
  reversed is deleted from the set. A `!` that this deletion leaves at the
  front of the set negates it just as `[!` does. Backslash has no special
  meaning.
 */
module FnMatch {
  import opened Strings
  import Seqs

  datatype ClassItem = Single(c: char) | Span(lo: char, hi: char)

  datatype Token =
    | Literal(c: char)
    | AnyChar
    | AnyRun
    | CharClass(negated: bool, items: seq<ClassItem>)

  /** The first index at or after `j` that holds `]`, or `|p|`. */
  function CloseBracket(p: string, j: nat): (k: nat)
    requires j <= |p|
    ensures j <= k <= |p|
    ensures forall m :: j <= m < k ==> p[m] != ']'
    ensures k < |p| ==> p[k] == ']'
    decreases |p| - j
  {
    if j == |p| || p[j] == ']' then j else CloseBracket(p, j + 1)
  }

  /** The members of a set's body, read left to right: `x-y` is a range whenever `y` exists. */
  function ClassItems(body: string): seq<ClassItem>
    decreases |body|
  {
    if body == [] then []
    else if 2 < |body| && body[1] == '-' then [Span(body[0], body[2])] + ClassItems(body[3..])
    else [Single(body[0])] + ClassItems(body[1..])
  }

  /** A range whose ends are reversed, such as `c-a`. */
  predicate IsEmptyRange(item: ClassItem)
  {
    item.Span? && item.hi < item.lo
  }

  function NotEmptyRange(): ClassItem -> bool
  {
    item => !IsEmptyRange(item)
  }

  /** The members of a set once `fnmatch.translate` has deleted its reversed ranges. */
  function LiveItems(items: seq<ClassItem>): seq<ClassItem>
  {
    Seqs.Filter(items, NotEmptyRange())
  }

  /** Once the reversed ranges are deleted, the body of the set starts with `!`. */
  predicate LeadingBang(items: seq<ClassItem>)
  {
    var live := LiveItems(items);
    live != [] && (live[0] == Single('!') || (live[0].Span? && live[0].lo == '!'))
  }

  /**
    The set token for a body with members `items`, negated by `[!` when
    `negated` holds. Otherwise a leading `!` left by the deletion negates
    the set; when that `!` was the low end of a range `!-y`, what follows
    it, `-y`, then stands for the two characters `-` and `y`.
   */
  function ClassToken(negated: bool, items: seq<ClassItem>): Token
  {
    var live := LiveItems(items);
    if negated || !LeadingBang(items) then CharClass(negated, live)
    else if live[0].Single? then CharClass(true, live[1..])
    else CharClass(true, [Single('-'), Single(live[0].hi)] + live[1..])
  }

  /** The wildcard pattern read into tokens, in the way `fnmatch.translate` reads it. */
  function Compile(p: string): seq<Token>
    decreases |p|
  {
    if p == [] then []
    else if p[0] == '*' then [AnyRun] + Compile(p[1..])
    else if p[0] == '?' then [AnyChar] + Compile(p[1..])
    else if p[0] == '[' then
      var start := if 1 < |p| && p[1] == '!' then 2 else 1;
      var search := if start < |p| && p[start] == ']' then start + 1 else start;
      var close := CloseBracket(p, search);
      if close == |p| then [Literal('[')] + Compile(p[1..])
      else [ClassToken(start == 2, ClassItems(p[start..close]))] + Compile(p[close + 1..])
    else [Literal(p[0])] + Compile(p[1..])
  }

  predicate ItemHas(item: ClassItem, c: char)
  {
    match item
    case Single(d) => c == d
    case Span(lo, hi) => lo <= c <= hi
  }

  predicate ClassHas(items: seq<ClassItem>, c: char)
  {
    exists i :: 0 <= i < |items| && ItemHas(items[i], c)
  }

  /** Whether a token that stands for exactly one character accepts `c`. */
  predicate Accepts(t: Token, c: char)
    requires !t.AnyRun?
  {
    match t
    case Literal(d) => c == d
    case AnyChar => true
    case CharClass(negated, items) => ClassHas(items, c) != negated
  }

  /** The whole of `s` is spelled by the token list `ts`. */
  predicate MatchTokens(ts: seq<Token>, s: string)
    decreases |ts| + |s|
  {
    if ts == [] then s == []
    else if ts[0].AnyRun? then MatchTokens(ts[1..], s) || (s != [] && MatchTokens(ts, s[1..]))
    else s != [] && Accepts(ts[0], s[0]) && MatchTokens(ts[1..], s[1..])
  }

  /** `fnmatch.fnmatch(name, pattern)` on a POSIX host. */
  predicate Matches(name: string, pattern: string)
  {
    MatchTokens(Compile(pattern), name)
  }

  /** A pattern with no wildcard character. */
  predicate IsPlain(p: string)
  {
    forall i :: 0 <= i < |p| ==> p[i] != '*' && p[i] != '?' && p[i] != '['
  }

  function Literals(w: string): (ts: seq<Token>)
    ensures |ts| == |w|
    ensures forall i :: 0 <= i < |w| ==> ts[i] == Literal(w[i])
  {
    seq(|w|, i requires 0 <= i < |w| => Literal(w[i]))
  }

  lemma {:induction false} CompilePlain(w: string)
    requires IsPlain(w)
    ensures Compile(w) == Literals(w)
    decreases |w|
  {
    if w != [] {
      CompilePlain(w[1..]);
      assert Literals(w) == [Literal(w[0])] + Literals(w[1..]);
    }
  }

  lemma {:induction false} MatchLiterals(w: string, s: string)
    ensures MatchTokens(Literals(w), s) <==> s == w
    decreases |w|
  {
    if w != [] && s != [] {
      assert Literals(w)[1..] == Literals(w[1..]);
      MatchLiterals(w[1..], s[1..]);
      assert s == [s[0]] + s[1..] && w == [w[0]] + w[1..];
    }
  }

  /** A pattern without wildcards matches exactly the name it spells. */
  lemma PlainMatchesItself(name: string, pattern: string)
    requires IsPlain(pattern)
    ensures Matches(name, pattern) <==> name == pattern
  {
    CompilePlain(pattern);
    MatchLiterals(pattern, name);
  }

  lemma {:induction false} MatchStarLiterals(w: string, s: string)
    ensures MatchTokens([AnyRun] + Literals(w), s) <==> EndsWith(s, w)
    decreases |s|
  {
    var ts := [AnyRun] + Literals(w);
    assert ts[1..] == Literals(w);
    MatchLiterals(w, s);
    if s != [] {
      MatchStarLiterals(w, s[1..]);
      if |w| <= |s| - 1 {
        assert s[1..][|s| - 1 - |w|..] == s[|s| - |w|..];
      }
    }
  }

  /** `*` followed by plain text matches exactly the names ending in that text. */
  lemma StarSuffixMatches(name: string, suffix: string)
    requires IsPlain(suffix)
    ensures Matches(name, "*" + suffix) <==> EndsWith(name, suffix)
  {
    assert ("*" + suffix)[1..] == suffix;
    CompilePlain(suffix);
    MatchStarLiterals(suffix, name);
  }

  /** `*` alone matches every name, the empty one included. */
  lemma StarMatchesAll(name: string)
    ensures Matches(name, "*")
  {
    assert Compile("*") == [AnyRun] + Literals("");
    MatchStarLiterals("", name);
  }

  /** A pattern with no `*` fixes the length of the names it matches. */
  lemma {:induction false} MatchWithoutStarLength(ts: seq<Token>, s: string)
    requires forall i :: 0 <= i < |ts| ==> !ts[i].AnyRun?
    requires MatchTokens(ts, s)
    ensures |s| == |ts|
    decreases |ts|
  {
    if ts != [] {
      MatchWithoutStarLength(ts[1..], s[1..]);
    }
  }

  /** Where the first `]` is determines `CloseBracket`. */
  lemma CloseBracketAt(p: string, j: nat, k: nat)
    requires j <= k < |p| && p[k] == ']'
    requires forall m :: j <= m < k ==> p[m] != ']'
    ensures CloseBracket(p, j) == k
  {
  }

  /** Deleting the reversed ranges leaves the same characters in the set. */
  lemma LiveItemsSame(items: seq<ClassItem>, c: char)
    ensures ClassHas(LiveItems(items), c) <==> ClassHas(items, c)
  {
    var live := LiveItems(items);
    if ClassHas(items, c) {
      var i :| 0 <= i < |items| && ItemHas(items[i], c);
      assert items[i] in live;
      var j :| 0 <= j < |live| && live[j] == items[i];
    }
    if ClassHas(live, c) {
      var j :| 0 <= j < |live| && ItemHas(live[j], c);
      assert live[j] in items;
      var i :| 0 <= i < |items| && items[i] == live[j];
    }
  }

  /** A set holds `c` exactly when its first member or one of the others does. */
  lemma ClassHasCons(x: ClassItem, rest: seq<ClassItem>, c: char)
    ensures ClassHas([x] + rest, c) <==> ItemHas(x, c) || ClassHas(rest, c)
  {
    var all := [x] + rest;
    if ClassHas(all, c) && !ItemHas(x, c) {
      var j :| 0 <= j < |all| && ItemHas(all[j], c);
      assert rest[j - 1] == all[j];
    }
    if ClassHas(rest, c) {
      var j :| 0 <= j < |rest| && ItemHas(rest[j], c);
      assert all[j + 1] == rest[j];
    }
    if ItemHas(x, c) {
      assert ItemHas(all[0], c);
    }
  }

  /**
    What a set token accepts. Unless a `!` is left at the front, it accepts
    the characters the body holds, or for `[!` those it does not. A `!`
    left at the front negates the set: outside that leading member and `-`,
    it accepts exactly the characters the body does not hold.
   */
  lemma ClassTokenAccepts(negated: bool, items: seq<ClassItem>, c: char)
    ensures ClassToken(negated, items).CharClass?
    ensures negated || !LeadingBang(items) ==>
              (Accepts(ClassToken(negated, items), c) <==> ClassHas(items, c) != negated)
    ensures !negated && LeadingBang(items) ==> ClassToken(negated, items).negated
    ensures !negated && LeadingBang(items) && !ItemHas(LiveItems(items)[0], c) && c != '-' ==>
              (Accepts(ClassToken(negated, items), c) <==> !ClassHas(items, c))
  {
    LiveItemsSame(items, c);
    var live := LiveItems(items);
    if !negated && LeadingBang(items) {
      var first, rest := live[0], live[1..];
      assert live == [first] + rest;
      ClassHasCons(first, rest, c);
      if first.Span? {
        assert first in live;
        ClassHasCons(Single('-'), [Single(first.hi)] + rest, c);
        ClassHasCons(Single(first.hi), rest, c);
        assert [Single('-'), Single(first.hi)] + rest == [Single('-')] + ([Single(first.hi)] + rest);
      }
    }
  }

  /**
    A pattern that is one set, `[body]` (start 1) or `[!body]` (start 2),
    compiles to one set token built from the members of `body`.
   */
  lemma CompileSet(p: string, start: nat)
    requires (start == 1 || start == 2) && start + 1 < |p|
    requires p[0] == '[' && (p[1] == '!' <==> start == 2)
    requires p[start] != ']' && p[|p| - 1] == ']'
    requires forall m :: start <= m < |p| - 1 ==> p[m] != ']'
    ensures Compile(p) == [ClassToken(start == 2, ClassItems(p[start..|p| - 1]))]
  {
    CloseBracketAt(p, start, |p| - 1);
    assert p[|p|..] == [];
  }

  /**
    A one-character name matches a one-set pattern exactly when its set
    token accepts it: for `[!body]`, and for `[body]` unless deleting the
    reversed ranges leaves `!` at the front, that is when the set holds it,
    or for `[!` when it does not.
   */
  lemma MatchSet(p: string, start: nat, c: char)
    requires (start == 1 || start == 2) && start + 1 < |p|
    requires p[0] == '[' && (p[1] == '!' <==> start == 2)
    requires p[start] != ']' && p[|p| - 1] == ']'
    requires forall m :: start <= m < |p| - 1 ==> p[m] != ']'
    ensures !ClassToken(start == 2, ClassItems(p[start..|p| - 1])).AnyRun?
    ensures Matches([c], p) <==> Accepts(ClassToken(start == 2, ClassItems(p[start..|p| - 1])), c)
    ensures start == 2 || !LeadingBang(ClassItems(p[start..|p| - 1])) ==>
              (Matches([c], p) <==> ClassHas(ClassItems(p[start..|p| - 1]), c) != (start == 2))
  {
    CompileSet(p, start);
    var items := ClassItems(p[start..|p| - 1]);
    ClassTokenAccepts(start == 2, items, c);
    var ts := Compile(p);
    assert ts[1..] == [] && [c][1..] == [];
    assert MatchTokens(ts, [c]) == (Accepts(ts[0], c) && MatchTokens([], []));
  }

  /** The two example patterns are each one set `[body]`. */
  lemma ExamplePatterns()
    ensures (var p := "[c-a!x]";
             |p| == 7 && p[0] == '[' && p[1] != '!' && p[1] != ']' && p[6] == ']' &&
             (forall m :: 1 <= m < 6 ==> p[m] != ']') && p[1..6] == "c-a!x")
    ensures (var p := "[c-a!]";
             |p| == 6 && p[0] == '[' && p[1] != '!' && p[1] != ']' && p[5] == ']' &&
             (forall m :: 1 <= m < 5 ==> p[m] != ']') && p[1..5] == "c-a!")
  {
  }

  lemma ExampleItems()
    ensures ClassItems("c-a!x") == [Span('c', 'a'), Single('!'), Single('x')]
    ensures ClassItems("c-a!") == [Span('c', 'a'), Single('!')]
  {
    assert "c-a!x"[3..] == "!x" && "!x"[1..] == "x" && "x"[1..] == "";
    assert "c-a!"[3..] == "!" && "!"[1..] == "";
  }

  /** Deleting a reversed range in front of `!`, and of `!x`. */
  lemma LiveAfterReversed(lo: char, hi: char, rest: seq<ClassItem>)
    requires hi < lo && (rest == [Single('!')] || rest == [Single('!'), Single('x')])
    ensures LiveItems([Span(lo, hi)] + rest) == rest
  {
    var keep := NotEmptyRange();
    var items := [Span(lo, hi)] + rest;
    assert items[..1] == [Span(lo, hi)] && items[..1][..0] == [];
    assert Seqs.Filter(items[..1], keep) == [];
    if |rest| == 2 {
      assert items[..2][..1] == items[..1] && items[..3] == items;
      assert Seqs.Filter(items[..2], keep) == [Single('!')];
    } else {
      assert items[..2] == items;
    }
  }

  /** `[c-a!x]`: the reversed range is deleted, and the `!` it leaves in front negates the set. */
  lemma ReversedRangeThenBang(c: char)
    ensures Matches([c], "[c-a!x]") <==> c != 'x'
  {
    var items := [Span('c', 'a'), Single('!'), Single('x')];
    ExamplePatterns();
    ExampleItems();
    LiveAfterReversed('c', 'a', [Single('!'), Single('x')]);
    assert [Span('c', 'a')] + [Single('!'), Single('x')] == items;
    MatchSet("[c-a!x]", 1, c);
    assert ClassToken(false, items) == CharClass(true, [Single('x')]);
    ClassHasCons(Single('x'), [], c);
    assert [Single('x')] + [] == [Single('x')];
  }

  /** `[c-a!]`: once the reversed range is deleted only the `!` is left, and it matches any one character. */
  lemma ReversedRangeThenBangAlone(c: char)
    ensures Matches([c], "[c-a!]")
  {
    var items := [Span('c', 'a'), Single('!')];
    ExamplePatterns();
    ExampleItems();
    LiveAfterReversed('c', 'a', [Single('!')]);
    assert [Span('c', 'a')] + [Single('!')] == items;
    MatchSet("[c-a!]", 1, c);
    assert ClassToken(false, items) == CharClass(true, []);
  }
}
