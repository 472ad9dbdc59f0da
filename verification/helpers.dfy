/**
 * The string and list helpers of the toolkit: order-preserving
 * de-duplication, the identifier grammar, outer-parenthesis stripping and
 * the notation normalizer that rewrites operator glyphs and keywords into
 * one canonical spelling.
 *
 * Regular expressions are modelled with ASCII character classes: `\w` is a
 * letter, a digit or `_`, and `\s` is one of the six ASCII blanks.
 */
module Helpers {

  // ---------------------------------------------------------------------
  // Sequences without duplicates
  // ---------------------------------------------------------------------

  predicate NoDuplicates<T(==)>(s: seq<T>)
  {
    forall i, j :: 0 <= i < j < |s| ==> s[i] != s[j]
  }

  function Elems<T>(s: seq<T>): set<T>
  {
    set x | x in s
  }

  /** The first occurrence of every element of `s` that is not in `seen`. */
  function UniqueExcept<T(==,!new)>(s: seq<T>, seen: set<T>): (r: seq<T>)
    ensures NoDuplicates(r)
    ensures forall x :: x in r <==> x in s && x !in seen
    decreases |s|
  {
    if |s| == 0 then []
    else if s[0] in seen then UniqueExcept(s[1..], seen)
    else
      var rest := UniqueExcept(s[1..], seen + {s[0]});
      assert s[0] !in rest;
      [s[0]] + rest
  }

  /** `list(dict.fromkeys(s))`: the elements of `s` in order of first occurrence. */
  function Unique<T(==,!new)>(s: seq<T>): (r: seq<T>)
    ensures NoDuplicates(r)
    ensures forall x :: x in r <==> x in s
  {
    UniqueExcept(s, {})
  }

  lemma {:induction false} UniqueExceptAppend<T(!new)>(a: seq<T>, b: seq<T>, seen: set<T>)
    ensures UniqueExcept(a + b, seen) == UniqueExcept(a, seen) + UniqueExcept(b, seen + Elems(a))
    decreases |a|
  {
    if |a| == 0 {
      assert a + b == b;
      assert seen + Elems(a) == seen;
    } else {
      assert (a + b)[1..] == a[1..] + b;
      if a[0] in seen {
        UniqueExceptAppend(a[1..], b, seen);
        assert seen + Elems(a[1..]) == seen + Elems(a);
      } else {
        UniqueExceptAppend(a[1..], b, seen + {a[0]});
        assert seen + {a[0]} + Elems(a[1..]) == seen + Elems(a);
      }
    }
  }

  lemma {:induction false} UniqueExceptTwice<T(!new)>(a: seq<T>, s1: set<T>, s2: set<T>)
    ensures UniqueExcept(UniqueExcept(a, s1), s2) == UniqueExcept(a, s1 + s2)
    decreases |a|
  {
    if |a| == 0 {
    } else if a[0] in s1 {
      UniqueExceptTwice(a[1..], s1, s2);
    } else {
      var rest := UniqueExcept(a[1..], s1 + {a[0]});
      assert UniqueExcept(a, s1) == [a[0]] + rest;
      assert ([a[0]] + rest)[1..] == rest;
      if a[0] in s2 {
        UniqueExceptTwice(a[1..], s1 + {a[0]}, s2);
        assert s1 + {a[0]} + s2 == s1 + s2;
      } else {
        UniqueExceptTwice(a[1..], s1 + {a[0]}, s2 + {a[0]});
        assert s1 + {a[0]} + (s2 + {a[0]}) == s1 + s2 + {a[0]};
      }
    }
  }

  lemma {:induction false} UniqueExceptCovered<T(!new)>(a: seq<T>, seen: set<T>)
    requires forall x :: x in a ==> x in seen
    ensures UniqueExcept(a, seen) == []
    decreases |a|
  {
    if |a| > 0 {
      assert a[0] in a;
      UniqueExceptCovered(a[1..], seen);
    }
  }

  lemma {:induction false} UniqueExceptIdentity<T(!new)>(a: seq<T>, seen: set<T>)
    requires NoDuplicates(a)
    requires forall x :: x in a ==> x !in seen
    ensures UniqueExcept(a, seen) == a
    decreases |a|
  {
    if |a| > 0 {
      var t := a[1..];
      assert NoDuplicates(t) by {
        forall i, j | 0 <= i < j < |t|
          ensures t[i] != t[j]
        {
          assert t[i] == a[i + 1] && t[j] == a[j + 1];
        }
      }
      forall x | x in t
        ensures x !in seen + {a[0]}
      {
        var k :| 0 <= k < |t| && t[k] == x;
        assert a[k + 1] == x && a[0] != a[k + 1];
      }
      UniqueExceptIdentity(t, seen + {a[0]});
      assert a[0] in a;
      assert UniqueExcept(a, seen) == [a[0]] + UniqueExcept(t, seen + {a[0]});
      assert a == [a[0]] + t;
    }
  }

  /** `unique` is the identity on a list that has no duplicates. */
  lemma UniqueIdentity<T(!new)>(a: seq<T>)
    requires NoDuplicates(a)
    ensures Unique(a) == a
  {
    UniqueExceptIdentity(a, {});
  }

  /**
   * Extending the input by one element extends the result by that element
   * exactly when it was not seen before: each element stays at the place
   * of its first occurrence.
   */
  lemma UniqueSnoc<T(!new)>(s: seq<T>, x: T)
    ensures Unique(s + [x]) == if x in s then Unique(s) else Unique(s) + [x]
  {
    UniqueExceptAppend(s, [x], {});
    assert {} + Elems(s) == Elems(s);
    assert [x][1..] == [];
  }

  /** De-duplicating a part of the input first does not change the result. */
  lemma UniqueAbsorbs<T(!new)>(a: seq<T>, b: seq<T>, c: seq<T>, seen: set<T>)
    ensures UniqueExcept(a + Unique(b) + c, seen) == UniqueExcept(a + b + c, seen)
  {
    var u := Unique(b);
    assert Elems(u) == Elems(b);
    calc {
      UniqueExcept(a + u + c, seen);
      { UniqueExceptAppend(a + u, c, seen); }
      UniqueExcept(a + u, seen) + UniqueExcept(c, seen + Elems(a + u));
      { UniqueExceptAppend(a, u, seen); assert Elems(a + u) == Elems(a + b); }
      UniqueExcept(a, seen) + UniqueExcept(u, seen + Elems(a)) + UniqueExcept(c, seen + Elems(a + b));
      { UniqueExceptTwice(b, {}, seen + Elems(a)); assert {} + (seen + Elems(a)) == seen + Elems(a); }
      UniqueExcept(a, seen) + UniqueExcept(b, seen + Elems(a)) + UniqueExcept(c, seen + Elems(a + b));
      { UniqueExceptAppend(a, b, seen); }
      UniqueExcept(a + b, seen) + UniqueExcept(c, seen + Elems(a + b));
      { UniqueExceptAppend(a + b, c, seen); }
      UniqueExcept(a + b + c, seen);
    }
  }

  /** De-duplicating both halves first does not change the result. */
  lemma UniqueOfUniques<T(!new)>(a: seq<T>, b: seq<T>)
    ensures Unique(Unique(a) + Unique(b)) == Unique(a + b)
  {
    var e: set<T> := {};
    calc {
      Unique(Unique(a) + Unique(b));
      { assert Unique(a) + Unique(b) == [] + Unique(a) + Unique(b); }
      UniqueExcept([] + Unique(a) + Unique(b), e);
      { UniqueAbsorbs([], a, Unique(b), e); }
      UniqueExcept([] + a + Unique(b), e);
      { assert [] + a + Unique(b) == a + Unique(b) + []; }
      UniqueExcept(a + Unique(b) + [], e);
      { UniqueAbsorbs(a, b, [], e); }
      UniqueExcept(a + b + [], e);
      { assert a + b + [] == a + b; }
      Unique(a + b);
    }
  }

  /** Repeating a prefix that is already present adds nothing. */
  lemma UniqueRepeatedPrefix<T(!new)>(a: seq<T>, rest: seq<T>)
    ensures Unique(a + (a + rest)) == Unique(a + rest)
  {
    var e: set<T> := {};
    assert a + (a + rest) == (a + a) + rest;
    assert Elems(a + a) == Elems(a);
    assert e + Elems(a) == Elems(a);
    calc {
      UniqueExcept((a + a) + rest, e);
      { UniqueExceptAppend(a + a, rest, e); }
      UniqueExcept(a + a, e) + UniqueExcept(rest, e + Elems(a + a));
      { UniqueExceptAppend(a, a, e); }
      UniqueExcept(a, e) + UniqueExcept(a, e + Elems(a)) + UniqueExcept(rest, Elems(a));
      { UniqueExceptCovered(a, e + Elems(a)); }
      UniqueExcept(a, e) + UniqueExcept(rest, e + Elems(a));
      { UniqueExceptAppend(a, rest, e); }
      UniqueExcept(a + rest, e);
    }
  }

  // ---------------------------------------------------------------------
  // Flattening lists of lists
  // ---------------------------------------------------------------------

  function Flatten<T>(ss: seq<seq<T>>): seq<T>
  {
    if |ss| == 0 then [] else ss[0] + Flatten(ss[1..])
  }

  lemma {:induction false} FlattenMember<T>(ss: seq<seq<T>>, x: T)
    ensures x in Flatten(ss) <==> exists i :: 0 <= i < |ss| && x in ss[i]
  {
    if |ss| > 0 {
      FlattenMember(ss[1..], x);
      if x in Flatten(ss[1..]) {
        var i :| 0 <= i < |ss| - 1 && x in ss[1..][i];
        assert x in ss[i + 1];
      }
      if exists i :: 0 <= i < |ss| && x in ss[i] {
        var i :| 0 <= i < |ss| && x in ss[i];
        if i > 0 {
          assert x in ss[1..][i - 1];
        }
      }
    }
  }

  lemma {:induction false} FlattenSnoc<T>(ss: seq<seq<T>>, s: seq<T>)
    ensures Flatten(ss + [s]) == Flatten(ss) + s
  {
    if |ss| == 0 {
      assert ss + [s] == [s];
    } else {
      assert (ss + [s])[1..] == ss[1..] + [s];
      FlattenSnoc(ss[1..], s);
    }
  }

  /** De-duplicating every part of a flattened list first does not change the result. */
  lemma {:induction false} UniqueFlattenParts<T(!new)>(parts: seq<seq<T>>, uniq: seq<seq<T>>, seen: set<T>)
    requires |parts| == |uniq|
    requires forall i :: 0 <= i < |parts| ==> uniq[i] == Unique(parts[i])
    ensures UniqueExcept(Flatten(uniq), seen) == UniqueExcept(Flatten(parts), seen)
  {
    if |parts| > 0 {
      UniqueFlattenParts(parts[1..], uniq[1..], seen + Elems(parts[0]));
      UniqueExceptAppend(uniq[0], Flatten(uniq[1..]), seen);
      UniqueExceptAppend(parts[0], Flatten(parts[1..]), seen);
      UniqueExceptTwice(parts[0], {}, seen);
      assert {} + seen == seen;
      assert Elems(uniq[0]) == Elems(parts[0]);
    }
  }

  // ---------------------------------------------------------------------
  // Character classes
  // ---------------------------------------------------------------------

  predicate IsAsciiLetter(c: char)
  {
    'a' <= c <= 'z' || 'A' <= c <= 'Z'
  }

  predicate IsDigit(c: char)
  {
    '0' <= c <= '9'
  }

  /** `\w`: a letter, a digit or an underscore. */
  predicate IsWordChar(c: char)
  {
    IsAsciiLetter(c) || IsDigit(c) || c == '_'
  }

  /** `\s`: space, tab, line feed, carriage return, vertical tab, form feed. */
  const Blanks: set<char> := {' ', '\t', '\n', '\r', '\U{B}', '\U{C}'}

  predicate IsBlank(c: char)
  {
    c in Blanks
  }

  /** The length of the longest run of characters of `cls` starting at `i` (a greedy `[...]+`, or 0). */
  function Run(s: string, i: nat, cls: set<char>): (n: nat)
    requires i <= |s|
    ensures i + n <= |s|
    ensures forall k :: i <= k < i + n ==> s[k] in cls
    ensures i + n == |s| || s[i + n] !in cls
    decreases |s| - i
  {
    if i == |s| || s[i] !in cls then 0 else 1 + Run(s, i + 1, cls)
  }

  /** Every run of the same class has the same length, wherever it is. */
  lemma {:induction false} RunExact(s: string, i: nat, cls: set<char>, n: nat)
    requires i + n <= |s|
    requires forall k :: i <= k < i + n ==> s[k] in cls
    requires i + n == |s| || s[i + n] !in cls
    ensures Run(s, i, cls) == n
    decreases n
  {
    if n > 0 {
      RunExact(s, i + 1, cls, n - 1);
    }
  }

  // ---------------------------------------------------------------------
  // good_name: the identifier grammar
  // ---------------------------------------------------------------------

  /** A name: non-empty, starts with a letter or `_`, continues with letters, digits or `_`. */
  predicate IsIdentifier(name: string)
  {
    |name| > 0 && (IsAsciiLetter(name[0]) || name[0] == '_') &&
    forall k :: 1 <= k < |name| ==> IsWordChar(name[k])
  }

  /** The length of the run of word characters starting at `i` (a greedy `\w*`). */
  function WordRun(s: string, i: nat): (n: nat)
    requires i <= |s|
    ensures i + n <= |s|
    ensures forall k :: i <= k < i + n ==> IsWordChar(s[k])
    ensures i + n == |s| || !IsWordChar(s[i + n])
    decreases |s| - i
  {
    if i == |s| || !IsWordChar(s[i]) then 0 else 1 + WordRun(s, i + 1)
  }

  /**
   * `good_name` as written: `re.match(r'^[a-zA-Z_]\w*$', name)`.  Python's `$`
   * also matches just before a final line feed, so a trailing newline is
   * accepted after an otherwise valid name.
   */
  function GoodNameAsWritten(name: string): (r: bool)
    ensures r <==> IsIdentifier(name) ||
                   (|name| >= 2 && name[|name| - 1] == '\n' && IsIdentifier(name[..|name| - 1]))
  {
    if |name| == 0 || !(IsAsciiLetter(name[0]) || name[0] == '_') then false
    else
      var end := 1 + WordRun(name, 1);
      end == |name| || (end == |name| - 1 && name[end] == '\n')
  }

  /** The identifier grammar the comments of `good_name` describe: the whole name must match. */
  function GoodName(name: string): (r: bool)
    ensures r <==> IsIdentifier(name)
  {
    if |name| == 0 || !(IsAsciiLetter(name[0]) || name[0] == '_') then false
    else
      1 + WordRun(name, 1) == |name|
  }

  /** The name `p` followed by a line feed passes `good_name` as written, but is no identifier. */
  lemma GoodNameAcceptsTrailingNewline()
    ensures GoodNameAsWritten("p\n") && !GoodName("p\n")
  {
    assert "p\n"[..1] == "p";
  }

  // ---------------------------------------------------------------------
  // display: strip one outer pair of parentheses
  // ---------------------------------------------------------------------

  /**
   * `re.sub(r'^\(([\s\S]*)\)$', r'\1', s)`: the greedy group runs to the last
   * `)` after which `$` matches, that is at the very end or just before a
   * final line feed.
   */
  function Display(s: string): (r: string)
    ensures |s| >= 2 && s[0] == '(' && s[|s| - 1] == ')' ==> "(" + r + ")" == s
    ensures |s| >= 3 && s[0] == '(' && s[|s| - 1] == '\n' && s[|s| - 2] == ')' ==>
              |r| >= 1 && r[|r| - 1] == '\n' && "(" + r[..|r| - 1] + ")\n" == s
    ensures !(|s| >= 2 && s[0] == '(' && (s[|s| - 1] == ')' || (s[|s| - 1] == '\n' && s[|s| - 2] == ')'))) ==> r == s
  {
    if |s| >= 2 && s[0] == '(' && s[|s| - 1] == ')' then s[1..|s| - 1]
    else if |s| >= 3 && s[0] == '(' && s[|s| - 2] == ')' && s[|s| - 1] == '\n' then s[1..|s| - 2] + "\n"
    else s
  }

  /** Wrapping in one pair of parentheses and then displaying gives the text back. */
  lemma DisplayUnwraps(t: string)
    ensures Display("(" + t + ")") == t
  {
    var s := "(" + t + ")";
    assert s[1..|s| - 1] == t;
  }

  // ---------------------------------------------------------------------
  // standardize_notations: operator tables
  // ---------------------------------------------------------------------

  const AndGlyphs: set<char> := {'&', '*', '\U{2227}', '\U{22C5}'}
  const XorGlyphs: set<char> := {'^', '\U{22BB}', '\U{2295}', '\U{2A01}'}
  const OrGlyphs: set<char> := {'|', '+', '\U{2228}'}
  const IffGlyphs: set<char> := {'\U{21D4}', '\U{27F7}', '\U{2194}', '\U{27FA}'}
  const ImpliesGlyphs: set<char> := {'\U{27F9}', '\U{27F6}', '\U{2192}', '\U{21D2}'}
  const NotGlyphs: set<char> := {'\U{223C}', '\U{00AC}', '~', '!'}

  const AndOp: string := " and "
  const XorOp: string := " xor "
  const OrOp: string := " or "
  const NotOp: string := "not "
  const ImpliesOp: string := " -> "
  const IffOp: string := " iff "

  /** The ASCII operator glyphs that normalization removes. */
  const AsciiGlyphs: set<char> := {'&', '*', '|', '+', '^', '~', '!'}

  /** The patterns substituted by the normalizer, in the order they are applied. */
  datatype Pattern =
    | AndPattern        // a run of AND glyphs, or the word AND / and
    | XorPattern        // a run of XOR glyphs, or the word XOR / xor
    | OrPattern         // a run of OR glyphs, or the word OR / or
    | IffPattern        // a `<`, dashes and `>`, one IFF glyph, or the word IFF / iff
    | ImpliesPattern    // dashes and `>`, one implication glyph, or the word to
    | NotPattern        // one NOT glyph, or the word NOT / not
    | BlankRun          // a run of blanks
    | OpenParenBlankNot // `(`, a run of blanks, then `not`

  /** `\b` between positions `j - 1` and `j`. */
  predicate WordBoundary(s: string, j: nat)
    requires j <= |s|
  {
    (j > 0 && IsWordChar(s[j - 1])) != (j < |s| && IsWordChar(s[j]))
  }

  /** `\bw\b` at position `i`. */
  predicate WordAt(s: string, i: nat, w: string)
    requires i <= |s|
  {
    i + |w| <= |s| && s[i..i + |w|] == w && WordBoundary(s, i) && WordBoundary(s, i + |w|)
  }

  /** Length of a `<-+>` match at `i`, or 0. */
  function IffArrowLen(s: string, i: nat): (n: nat)
    requires i < |s|
    ensures i + n <= |s|
  {
    if s[i] != '<' then 0
    else
      var d := Run(s, i + 1, {'-'});
      if d > 0 && i + 1 + d < |s| && s[i + 1 + d] == '>' then d + 2 else 0
  }

  /** Length of a `-+>` match at `i`, or 0. */
  function ImpliesArrowLen(s: string, i: nat): (n: nat)
    requires i < |s|
    ensures i + n <= |s|
  {
    var d := Run(s, i, {'-'});
    if d > 0 && i + d < |s| && s[i + d] == '>' then d + 1 else 0
  }

  /** Length of a `[glyphs]+|\b(UPPER|lower)\b` match at `i`, or 0. */
  function GlyphsOrWord(s: string, i: nat, glyphs: set<char>, upper: string, lower: string): (n: nat)
    requires i < |s|
    requires |upper| == |lower|
    ensures i + n <= |s|
  {
    var g := Run(s, i, glyphs);
    if g > 0 then g
    else if WordAt(s, i, upper) || WordAt(s, i, lower) then |upper|
    else 0
  }

  /**
   * The length of the match of `p` that starts at position `i` (0 when there
   * is none), trying the alternatives of the pattern in their written order.
   */
  function MatchAt(p: Pattern, s: string, i: nat): (n: nat)
    requires i < |s|
    ensures i + n <= |s|
  {
    match p
    case AndPattern => GlyphsOrWord(s, i, AndGlyphs, "AND", "and")
    case XorPattern => GlyphsOrWord(s, i, XorGlyphs, "XOR", "xor")
    case OrPattern => GlyphsOrWord(s, i, OrGlyphs, "OR", "or")
    case IffPattern =>
      var a := IffArrowLen(s, i);
      if a > 0 then a
      else if s[i] in IffGlyphs then 1
      else if WordAt(s, i, "IFF") || WordAt(s, i, "iff") then 3
      else 0
    case ImpliesPattern =>
      var a := ImpliesArrowLen(s, i);
      if a > 0 then a
      else if s[i] in ImpliesGlyphs then 1
      else if WordAt(s, i, "to") then 2
      else 0
    case NotPattern =>
      if s[i] in NotGlyphs then 1
      else if WordAt(s, i, "NOT") || WordAt(s, i, "not") then 3
      else 0
    case BlankRun => Run(s, i, Blanks)
    case OpenParenBlankNot =>
      if s[i] != '(' then 0
      else
        var w := Run(s, i + 1, Blanks);
        if w > 0 && i + 4 + w <= |s| && s[i + 1 + w..i + 4 + w] == "not" then w + 4 else 0
  }

  /**
   * `re.sub(p, repl, s[i..])` from scan position `i`: the leftmost match is
   * replaced, scanning resumes after it, and a position without a match is
   * copied.
   */
  function SubFrom(p: Pattern, s: string, i: nat, repl: string): string
    requires i <= |s|
    decreases |s| - i
  {
    if i == |s| then []
    else
      var n := MatchAt(p, s, i);
      if n > 0 then repl + SubFrom(p, s, i + n, repl)
      else [s[i]] + SubFrom(p, s, i + 1, repl)
  }

  function Sub(p: Pattern, s: string, repl: string): string
  {
    SubFrom(p, s, 0, repl)
  }

  /** No `(\s+not` match starts anywhere in `t`. */
  predicate NoParenBlankNot(t: string)
  {
    forall j :: 0 <= j < |t| ==> MatchAt(OpenParenBlankNot, t, j) == 0
  }

  predicate NoAdjacentBlanks(t: string)
  {
    forall j :: 0 <= j < |t| - 1 ==> !(IsBlank(t[j]) && IsBlank(t[j + 1]))
  }

  /** The six operator substitutions of `standardize_notations`, in code order. */
  function RewriteOperators(s: string): string
  {
    var s1 := Sub(AndPattern, s, AndOp);
    var s2 := Sub(XorPattern, s1, XorOp);
    var s3 := Sub(OrPattern, s2, OrOp);
    var s4 := Sub(IffPattern, s3, IffOp);
    var s5 := Sub(ImpliesPattern, s4, ImpliesOp);
    Sub(NotPattern, s5, NotOp)
  }

  /**
   * `standardize_notations`: AND, XOR, OR, IFF, IMPLIES and NOT are
   * rewritten in this order, then every blank run becomes one space and a
   * blank run between `(` and `not` is removed.
   */
  function StandardizeNotations(s: string): (r: string)
    ensures NoAdjacentBlanks(r)
    ensures Avoids(r, AsciiGlyphs)
    ensures NoParenBlankNot(r)
  {
    var s6 := RewriteOperators(s);
    var s7 := Sub(BlankRun, s6, " ");
    var r := Sub(OpenParenBlankNot, s7, "(not");
    GlyphsRemoved(s);
    BlanksAndParensNormalized(s6);
    r
  }

  /** The last two substitutions of `standardize_notations`. */
  lemma BlanksAndParensNormalized(s6: string)
    requires Avoids(s6, AsciiGlyphs)
    ensures var r := Sub(OpenParenBlankNot, Sub(BlankRun, s6, " "), "(not");
      NoAdjacentBlanks(r) && Avoids(r, AsciiGlyphs) && NoParenBlankNot(r)
  {
    var s7 := Sub(BlankRun, s6, " ");
    StepAvoids(BlankRun, s6, " ", AsciiGlyphs, {});
    StepAvoids(OpenParenBlankNot, s7, "(not", AsciiGlyphs, {});
    BlankRunsCollapsed(s6, 0);
    KeepsBlanksApart(OpenParenBlankNot, s7, 0, "(not");
    ParenBlankNotRemoved(s7, 0);
  }

  // ---------------------------------------------------------------------
  // Properties of one substitution
  // ---------------------------------------------------------------------

  lemma SubFromFirst(p: Pattern, s: string, i: nat, repl: string)
    requires i < |s| && |repl| > 0
    ensures |SubFrom(p, s, i, repl)| > 0
    ensures SubFrom(p, s, i, repl)[0] == if MatchAt(p, s, i) > 0 then repl[0] else s[i]
  {
  }

  /**
   * A substitution leaves no character of `cls` behind when every such
   * character starts a match and the replacement contains none.
   */
  lemma {:induction false} SubAvoids(p: Pattern, s: string, i: nat, repl: string, cls: set<char>)
    requires i <= |s|
    requires MatchesCover(p, s, i, cls)
    requires Avoids(repl, cls)
    ensures Avoids(SubFrom(p, s, i, repl), cls)
    decreases |s| - i
  {
    if i < |s| {
      var n := MatchAt(p, s, i);
      var next := if n > 0 then i + n else i + 1;
      CoverShift(p, s, i, next, cls);
      SubAvoids(p, s, next, repl, cls);
      SubAvoidsStep(p, s, i, repl, cls);
    }
  }

  /** One step of the substitution keeps `cls` out, given that the rest of the output avoids it. */
  lemma SubAvoidsStep(p: Pattern, s: string, i: nat, repl: string, cls: set<char>)
    requires i < |s| && Avoids(repl, cls)
    requires MatchAt(p, s, i) > 0 || s[i] !in cls
    requires Avoids(SubFrom(p, s, if MatchAt(p, s, i) > 0 then i + MatchAt(p, s, i) else i + 1, repl), cls)
    ensures Avoids(SubFrom(p, s, i, repl), cls)
  {
    var n := MatchAt(p, s, i);
    if n > 0 {
      AvoidsAppend(repl, SubFrom(p, s, i + n, repl), cls);
    } else {
      AvoidsAppend([s[i]], SubFrom(p, s, i + 1, repl), cls);
    }
  }

  /** Every character of `cls` from position `i` on starts a match. */
  predicate MatchesCover(p: Pattern, s: string, i: nat, cls: set<char>)
  {
    forall j :: i <= j < |s| && s[j] in cls ==> MatchAt(p, s, j) > 0
  }

  lemma CoverShift(p: Pattern, s: string, i: nat, k: nat, cls: set<char>)
    requires MatchesCover(p, s, i, cls) && i <= k
    ensures MatchesCover(p, s, k, cls)
  {
  }

  lemma AvoidsAppend(a: string, b: string, cls: set<char>)
    requires Avoids(a, cls) && Avoids(b, cls)
    ensures Avoids(a + b, cls)
  {
  }

  lemma NoAdjacentBlanksAppend(a: string, b: string)
    requires NoAdjacentBlanks(a) && NoAdjacentBlanks(b)
    requires |a| > 0 && |b| > 0 ==> !(IsBlank(a[|a| - 1]) && IsBlank(b[0]))
    ensures NoAdjacentBlanks(a + b)
  {
    var t := a + b;
    forall j | 0 <= j < |t| - 1
      ensures !(IsBlank(t[j]) && IsBlank(t[j + 1]))
    {
      if j < |a| - 1 {
        assert t[j] == a[j] && t[j + 1] == a[j + 1];
      } else if j >= |a| {
        assert t[j] == b[j - |a|] && t[j + 1] == b[j + 1 - |a|];
      }
    }
  }

  /** A replacement without blanks keeps apart blanks that were apart. */
  lemma {:induction false} KeepsBlanksApart(p: Pattern, s: string, i: nat, repl: string)
    requires i <= |s|
    requires NoAdjacentBlanks(s)
    requires |repl| > 0 && forall c :: c in repl ==> !IsBlank(c)
    ensures NoAdjacentBlanks(SubFrom(p, s, i, repl))
    decreases |s| - i
  {
    if i < |s| {
      var n := MatchAt(p, s, i);
      var next := if n > 0 then i + n else i + 1;
      KeepsBlanksApart(p, s, next, repl);
      KeepsBlanksApartStep(p, s, i, repl);
    }
  }

  /** One step of a blank-free replacement keeps blanks apart, given that the rest of the output does. */
  lemma KeepsBlanksApartStep(p: Pattern, s: string, i: nat, repl: string)
    requires i < |s| && NoAdjacentBlanks(s)
    requires |repl| > 0 && forall c :: c in repl ==> !IsBlank(c)
    requires NoAdjacentBlanks(SubFrom(p, s, if MatchAt(p, s, i) > 0 then i + MatchAt(p, s, i) else i + 1, repl))
    ensures NoAdjacentBlanks(SubFrom(p, s, i, repl))
  {
    var n := MatchAt(p, s, i);
    if n > 0 {
      assert forall j :: 0 <= j < |repl| ==> repl[j] in repl;
      NoAdjacentBlanksAppend(repl, SubFrom(p, s, i + n, repl));
    } else {
      if i + 1 < |s| {
        SubFromFirst(p, s, i + 1, repl);
        assert repl[0] in repl;
      }
      NoAdjacentBlanksAppend([s[i]], SubFrom(p, s, i + 1, repl));
    }
  }

  /** After `\s+` is replaced by one space, no two blanks are adjacent. */
  lemma {:induction false} BlankRunsCollapsed(s: string, i: nat)
    requires i <= |s|
    ensures NoAdjacentBlanks(SubFrom(BlankRun, s, i, " "))
    decreases |s| - i
  {
    if i < |s| {
      var n := MatchAt(BlankRun, s, i);
      if n > 0 {
        BlankRunsCollapsed(s, i + n);
        if i + n < |s| {
          SubFromFirst(BlankRun, s, i + n, " ");
        }
        NoAdjacentBlanksAppend(" ", SubFrom(BlankRun, s, i + n, " "));
      } else {
        BlankRunsCollapsed(s, i + 1);
        NoAdjacentBlanksAppend([s[i]], SubFrom(BlankRun, s, i + 1, " "));
      }
    }
  }

  /** No character of `cls` occurs in `t`. */
  predicate Avoids(t: string, cls: set<char>)
  {
    forall c :: c in t ==> c !in cls
  }

  /**
   * One substitution step: characters already absent stay absent, and the
   * characters that always start a match disappear.
   */
  lemma StepAvoids(p: Pattern, s: string, repl: string, kept: set<char>, starts: set<char>)
    requires Avoids(s, kept)
    requires Avoids(repl, kept + starts)
    requires forall j :: 0 <= j < |s| && s[j] in starts ==> MatchAt(p, s, j) > 0
    ensures Avoids(Sub(p, s, repl), kept + starts)
  {
    forall j | 0 <= j < |s| && s[j] in kept + starts
      ensures MatchAt(p, s, j) > 0
    {
      assert s[j] in s;
    }
    SubAvoids(p, s, 0, repl, kept + starts);
  }

  const AndGone: set<char> := {'&', '*'}
  const XorGone: set<char> := AndGone + {'^'}
  const OrGone: set<char> := XorGone + {'|', '+'}

  lemma AndStepAvoids(s: string)
    ensures Avoids(Sub(AndPattern, s, AndOp), AndGone)
  {
    StepAvoids(AndPattern, s, AndOp, {}, AndGone);
  }

  lemma XorStepAvoids(s: string)
    requires Avoids(s, AndGone)
    ensures Avoids(Sub(XorPattern, s, XorOp), XorGone)
  {
    StepAvoids(XorPattern, s, XorOp, AndGone, {'^'});
  }

  lemma OrStepAvoids(s: string)
    requires Avoids(s, XorGone)
    ensures Avoids(Sub(OrPattern, s, OrOp), OrGone)
  {
    StepAvoids(OrPattern, s, OrOp, XorGone, {'|', '+'});
  }

  lemma NotStepAvoids(s: string)
    requires Avoids(s, OrGone)
    ensures Avoids(Sub(NotPattern, s, NotOp), AsciiGlyphs)
  {
    StepAvoids(NotPattern, s, NotOp, OrGone, {'~', '!'});
    assert OrGone + {'~', '!'} == AsciiGlyphs;
  }

  /** None of the ASCII operator glyphs survives the six operator substitutions. */
  lemma GlyphsRemoved(s: string)
    ensures Avoids(RewriteOperators(s), AsciiGlyphs)
  {
    var s1 := Sub(AndPattern, s, AndOp);
    AndStepAvoids(s);
    var s2 := Sub(XorPattern, s1, XorOp);
    XorStepAvoids(s1);
    var s3 := Sub(OrPattern, s2, OrOp);
    OrStepAvoids(s2);
    var s4 := Sub(IffPattern, s3, IffOp);
    StepAvoids(IffPattern, s3, IffOp, OrGone, {});
    var s5 := Sub(ImpliesPattern, s4, ImpliesOp);
    StepAvoids(ImpliesPattern, s4, ImpliesOp, OrGone, {});
    NotStepAvoids(s5);
  }

  lemma {:induction false} RunShift(a: string, b: string, k: nat, cls: set<char>)
    requires k <= |b|
    ensures Run(a + b, |a| + k, cls) == Run(b, k, cls)
    decreases |b| - k
  {
    if k < |b| {
      assert (a + b)[|a| + k] == b[k];
      RunShift(a, b, k + 1, cls);
    }
  }

  /** Whether `(\s+not` matches depends only on the text from the match on. */
  lemma ParenBlankNotShift(a: string, b: string, k: nat)
    requires k < |b|
    ensures MatchAt(OpenParenBlankNot, a + b, |a| + k) == MatchAt(OpenParenBlankNot, b, k)
  {
    var t := a + b;
    assert t[|a| + k] == b[k];
    RunShift(a, b, k + 1, Blanks);
    var w := Run(b, k + 1, Blanks);
    if k + 4 + w <= |b| {
      assert t[|a| + k + 1 + w..|a| + k + 4 + w] == b[k + 1 + w..k + 4 + w];
    }
  }

  /** After the `(\s+not` substitution, with blanks kept apart, no match remains. */
  lemma {:induction false} ParenBlankNotRemoved(s: string, i: nat)
    requires i <= |s|
    requires NoAdjacentBlanks(s)
    ensures NoParenBlankNot(SubFrom(OpenParenBlankNot, s, i, "(not"))
    decreases |s| - i
  {
    if i < |s| {
      var out := SubFrom(OpenParenBlankNot, s, i, "(not");
      var n := MatchAt(OpenParenBlankNot, s, i);
      var x := if n > 0 then "(not" else [s[i]];
      var next := if n > 0 then i + n else i + 1;
      var rest := SubFrom(OpenParenBlankNot, s, next, "(not");
      assert out == x + rest;
      ParenBlankNotRemoved(s, next);
      KeepsBlanksApart(OpenParenBlankNot, s, i, "(not");
      forall j | 0 <= j < |out|
        ensures MatchAt(OpenParenBlankNot, out, j) == 0
      {
        if j >= |x| {
          ParenBlankNotShift(x, rest, j - |x|);
        } else if n > 0 {
          ReplacementStartsNoMatch(rest, j);
        } else {
          CopiedParenNoMatch(s, i);
        }
      }
    }
  }

  /** Inside an inserted `(not` no `(\s+not` match starts. */
  lemma ReplacementStartsNoMatch(rest: string, j: nat)
    requires j < 4
    ensures MatchAt(OpenParenBlankNot, "(not" + rest, j) == 0
  {
    var out := "(not" + rest;
    assert out[j] == "(not"[j];
    if j == 0 {
      assert out[1] == 'n';
    }
  }

  /** A `(` copied because no match started there does not start one in the output. */
  lemma CopiedParenNoMatch(s: string, i: nat)
    requires i < |s|
    requires NoAdjacentBlanks(s)
    requires MatchAt(OpenParenBlankNot, s, i) == 0
    ensures MatchAt(OpenParenBlankNot, SubFrom(OpenParenBlankNot, s, i, "(not"), 0) == 0
  {
    var out := SubFrom(OpenParenBlankNot, s, i, "(not");
    var rest := SubFrom(OpenParenBlankNot, s, i + 1, "(not");
    assert out == [s[i]] + rest;
    KeepsBlanksApart(OpenParenBlankNot, s, i, "(not");
    SubFromCopies(OpenParenBlankNot, s, i + 1, "(not");
    ParenFromCopies(s, i, rest);
  }

  /** A `(\s+not` match after a character whose following text was copied from `s` is a match of `s`. */
  lemma ParenFromCopies(s: string, i: nat, rest: string)
    requires i < |s| && CopiedUntil(s[i + 1..], rest, '(')
    ensures var out := [s[i]] + rest;
      MatchAt(OpenParenBlankNot, out, 0) > 0 && NoAdjacentBlanks(out) ==> MatchAt(OpenParenBlankNot, s, i) > 0
  {
    var out := [s[i]] + rest;
    ParenMatchChars(out, 0);
    if MatchAt(OpenParenBlankNot, out, 0) > 0 && NoAdjacentBlanks(out) {
      assert forall m :: 0 <= m < 4 ==> rest[m] == out[1 + m];
      assert '(' !in rest[..4];
      var t := s[i + 1..];
      CopiedPrefixOf(t, rest, '(', 4);
      assert forall m :: 0 <= m < 4 ==> t[m] == s[i + 1 + m];
      ParenMatchFromChars(s, i);
    }
  }

  /** A run of exactly one character. */
  lemma RunOfOne(s: string, k: nat, cls: set<char>)
    requires k <= |s|
    ensures k + 1 < |s| && s[k] in cls && s[k + 1] !in cls ==> Run(s, k, cls) == 1
  {
  }

  /** A `(\s+not` match in text whose blanks are apart, character by character. */
  lemma ParenMatchChars(t: string, k: nat)
    requires k < |t|
    ensures MatchAt(OpenParenBlankNot, t, k) > 0 && NoAdjacentBlanks(t) ==>
      k + 5 <= |t| && t[k] == '(' && IsBlank(t[k + 1]) && t[k + 2] == 'n' && t[k + 3] == 'o' && t[k + 4] == 't'
  {
    if MatchAt(OpenParenBlankNot, t, k) > 0 && NoAdjacentBlanks(t) {
      var w := Run(t, k + 1, Blanks);
      assert IsBlank(t[k + 1]);
      assert !IsBlank(t[k + 2]);
      assert w == 1;
      var nt := t[k + 2..k + 5];
      assert nt == "not";
      assert nt[0] == 'n' && nt[1] == 'o' && nt[2] == 't';
    }
  }

  /** The converse: `(`, one blank and `not` make a match of length 5. */
  lemma ParenMatchFromChars(t: string, k: nat)
    requires k < |t|
    ensures k + 5 <= |t| && t[k] == '(' && IsBlank(t[k + 1]) && t[k + 2] == 'n' && t[k + 3] == 'o' && t[k + 4] == 't' ==>
      MatchAt(OpenParenBlankNot, t, k) == 5
  {
    if k + 5 <= |t| && t[k] == '(' && IsBlank(t[k + 1]) && t[k + 2] == 'n' && t[k + 3] == 'o' && t[k + 4] == 't' {
      RunOfOne(t, k + 1, Blanks);
      assert t[k + 2..k + 5] == "not";
    }
  }

  // ---------------------------------------------------------------------
  // IFF runs before IMPLIES
  // ---------------------------------------------------------------------

  /** No `<-+>` arrow starts anywhere in `t`. */
  predicate NoIffArrow(t: string)
  {
    forall j :: 0 <= j < |t| ==> IffArrowLen(t, j) == 0
  }

  lemma IffArrowShift(a: string, b: string, k: nat)
    requires k < |b|
    ensures IffArrowLen(a + b, |a| + k) == IffArrowLen(b, k)
  {
    var t := a + b;
    assert t[|a| + k] == b[k];
    RunShift(a, b, k + 1, {'-'});
    var d := Run(b, k + 1, {'-'});
    if k + 1 + d < |b| {
      assert t[|a| + k + 1 + d] == b[k + 1 + d];
    }
  }

  /** A `<-+>` arrow, character by character. */
  lemma IffArrowChars(t: string, k: nat)
    requires k < |t|
    ensures var d := IffArrowLen(t, k);
      d > 0 ==> (d >= 3 && k + d <= |t| && t[k] == '<' && t[k + d - 1] == '>' &&
        forall q :: k + 1 <= q < k + d - 1 ==> t[q] == '-')
  {
  }

  lemma IffArrowFromChars(t: string, k: nat, d: nat)
    requires k < |t|
    ensures (d >= 3 && k + d <= |t| && t[k] == '<' && t[k + d - 1] == '>' &&
      forall q :: k + 1 <= q < k + d - 1 ==> t[q] == '-') ==> IffArrowLen(t, k) == d
  {
    if d >= 3 && k + d <= |t| && t[k] == '<' && t[k + d - 1] == '>' && (forall q :: k + 1 <= q < k + d - 1 ==> t[q] == '-') {
      RunExact(t, k + 1, {'-'}, d - 2);
    }
  }

  /** An arrow at the head of the IFF step's output comes from a match in its input. */
  lemma ArrowInOutputIsMatch(s: string, i: nat)
    requires i < |s|
    ensures IffArrowLen(SubFrom(IffPattern, s, i, IffOp), 0) > 0 ==> MatchAt(IffPattern, s, i) > 0
  {
    if MatchAt(IffPattern, s, i) == 0 {
      assert SubFrom(IffPattern, s, i, IffOp) == [s[i]] + SubFrom(IffPattern, s, i + 1, IffOp);
      CopiedArrow(s, i);
    }
  }

  /** An arrow that starts at a copied character was already in the input. */
  lemma CopiedArrow(s: string, i: nat)
    requires i < |s|
    ensures var out := [s[i]] + SubFrom(IffPattern, s, i + 1, IffOp);
      IffArrowLen(out, 0) > 0 ==> IffArrowLen(s, i) > 0
  {
    var rest := SubFrom(IffPattern, s, i + 1, IffOp);
    SubFromCopies(IffPattern, s, i + 1, IffOp);
    ArrowFromCopies(s, i, rest);
  }

  /** `out` repeats `t` character by character up to the first `c` in `out`. */
  predicate CopiedUntil(t: string, out: string, c: char)
    decreases |out|
  {
    |out| == 0 || out[0] == c || (|t| > 0 && t[0] == out[0] && CopiedUntil(t[1..], out[1..], c))
  }

  /** Before the first `c`, an output character is the input character at the same offset. */
  lemma {:induction false} CopiedAt(t: string, out: string, c: char, m: nat)
    requires CopiedUntil(t, out, c) && m < |out| && c !in out[..m + 1]
    ensures m < |t| && t[m] == out[m]
    decreases m
  {
    assert out[..m + 1][0] == out[0];
    if m > 0 {
      assert out[1..][..m] == out[..m + 1][1..];
      CopiedAt(t[1..], out[1..], c, m - 1);
    }
  }

  /** A prefix of the output without `c` is a prefix of the input. */
  lemma CopiedPrefixOf(t: string, out: string, c: char, n: nat)
    requires CopiedUntil(t, out, c)
    ensures n <= |out| && c !in out[..n] ==> n <= |t| && forall m :: 0 <= m < n ==> t[m] == out[m]
  {
    if 0 < n <= |out| && c !in out[..n] {
      forall m | 0 <= m < n
        ensures m < |t| && t[m] == out[m]
      {
        assert out[..m + 1] == out[..n][..m + 1];
        CopiedAt(t, out, c, m);
      }
      assert out[..n - 1 + 1] == out[..n];
      CopiedAt(t, out, c, n - 1);
    }
  }

  /** A substitution copies its input up to the first character of the replacement. */
  lemma {:induction false} SubFromCopies(p: Pattern, s: string, j: nat, repl: string)
    requires j <= |s| && |repl| > 0
    ensures CopiedUntil(s[j..], SubFrom(p, s, j, repl), repl[0])
    decreases |s| - j
  {
    if j < |s| {
      var out := SubFrom(p, s, j, repl);
      SubFromFirst(p, s, j, repl);
      if out[0] != repl[0] {
        var rest := SubFrom(p, s, j + 1, repl);
        assert out == [s[j]] + rest;
        SubFromCopies(p, s, j + 1, repl);
        assert out[1..] == rest && s[j..][1..] == s[j + 1..];
      }
    }
  }

  /** An arrow after a character whose following text was copied from `s` is an arrow of `s`. */
  lemma ArrowFromCopies(s: string, i: nat, rest: string)
    requires i < |s| && CopiedUntil(s[i + 1..], rest, IffOp[0])
    ensures IffArrowLen([s[i]] + rest, 0) > 0 ==> IffArrowLen(s, i) > 0
  {
    var out := [s[i]] + rest;
    var d := IffArrowLen(out, 0);
    if d > 0 {
      IffArrowChars(out, 0);
      var w := out[1..d];
      assert w == rest[..d - 1];
      forall m | 0 <= m < |w|
        ensures i + 1 + m < |s| && s[i + 1 + m] == w[m]
      {
        assert IffOp[0] !in rest[..m + 1] by {
          forall q | 0 <= q <= m
            ensures rest[q] != IffOp[0]
          {
            assert rest[q] == out[1 + q];
          }
        }
        CopiedAt(s[i + 1..], rest, IffOp[0], m);
      }
      ArrowTransfer(s, i, out, w);
    }
  }

  /** An arrow whose characters were copied into `out` is an arrow of `s` too. */
  lemma ArrowTransfer(s: string, i: nat, out: string, w: string)
    requires i < |s| && 0 < |out| && out[0] == s[i]
    requires IffArrowLen(out, 0) == |w| + 1 && w == out[1..|w| + 1]
    requires i + |w| < |s| && forall m :: 0 <= m < |w| ==> s[i + 1 + m] == w[m]
    ensures IffArrowLen(s, i) == |w| + 1
  {
    var d := |w| + 1;
    IffArrowChars(out, 0);
    forall q | i + 1 <= q < i + d - 1
      ensures s[q] == '-'
    {
      assert s[i + 1 + (q - i - 1)] == w[q - i - 1];
      assert w[q - i - 1] == out[q - i];
    }
    assert s[i + 1 + (d - 2)] == w[d - 2];
    IffArrowFromChars(s, i, d);
  }

  /** The IFF substitution leaves no `<-+>` arrow behind. */
  lemma {:induction false} IffArrowsRemoved(s: string, i: nat)
    requires i <= |s|
    ensures NoIffArrow(SubFrom(IffPattern, s, i, IffOp))
    decreases |s| - i
  {
    if i < |s| {
      var out := SubFrom(IffPattern, s, i, IffOp);
      var n := MatchAt(IffPattern, s, i);
      var x := if n > 0 then IffOp else [s[i]];
      var next := if n > 0 then i + n else i + 1;
      var rest := SubFrom(IffPattern, s, next, IffOp);
      assert out == x + rest;
      IffArrowsRemoved(s, next);
      forall j | 0 <= j < |out|
        ensures IffArrowLen(out, j) == 0
      {
        if j >= |x| {
          IffArrowShift(x, rest, j - |x|);
        } else if n > 0 {
          assert out[j] == IffOp[j];
        } else {
          ArrowInOutputIsMatch(s, i);
        }
      }
    }
  }

  /**
   * In the text the IMPLIES substitution receives, no `-+>` arrow follows a
   * `<`: a `<-+>` arrow has already become ` iff `.
   */
  lemma IffBeforeImplies(t: string)
    ensures var u := Sub(IffPattern, t, IffOp);
      forall j :: 0 < j < |u| && u[j - 1] == '<' ==> ImpliesArrowLen(u, j) == 0
  {
    var u := Sub(IffPattern, t, IffOp);
    IffArrowsRemoved(t, 0);
    forall j | 0 < j < |u| && u[j - 1] == '<'
      ensures ImpliesArrowLen(u, j) == 0
    {
      assert IffArrowLen(u, j - 1) == 0;
    }
  }

  // ---------------------------------------------------------------------
  // XOR runs before OR
  // ---------------------------------------------------------------------

  /**
   * Keywords match only at a word boundary: after a word character the OR
   * pattern can match only one of its glyphs, so the `or` inside `xor`
   * never matches.
   */
  lemma OrKeywordNeedsBoundary(t: string, j: nat)
    requires 0 < j < |t|
    ensures IsWordChar(t[j - 1]) && t[j] !in OrGlyphs ==> MatchAt(OrPattern, t, j) == 0
  {
  }

  // ---------------------------------------------------------------------
  // The OR step around an inserted ` xor `
  // ---------------------------------------------------------------------

  /** A run inside `a` ends where it did when `a` is followed by a character outside the class. */
  lemma RunPrefix(a: string, m: string, i: nat, cls: set<char>)
    requires i <= |a| && |m| > 0 && m[0] !in cls
    ensures Run(a + m, i, cls) == Run(a, i, cls)
  {
    var n := Run(a, i, cls);
    var s := a + m;
    assert forall k :: i <= k < i + n ==> s[k] == a[k];
    assert s[i + n] == if i + n == |a| then m[0] else a[i + n];
    RunExact(s, i, cls, n);
  }

  /** A keyword match inside `a` is unchanged when `a` is followed by a non-word character. */
  lemma WordAtPrefix(a: string, m: string, i: nat, w: string)
    requires i < |a| && |m| > 0 && !IsWordChar(m[0])
    requires |w| > 0 && forall c :: c in w ==> IsWordChar(c)
    ensures WordAt(a + m, i, w) == WordAt(a, i, w)
  {
    var s := a + m;
    if i + |w| <= |a| {
      assert s[i..i + |w|] == a[i..i + |w|];
      assert s[i] == a[i];
      if i > 0 {
        assert s[i - 1] == a[i - 1];
      }
      if i + |w| < |a| {
        assert s[i + |w|] == a[i + |w|];
      } else {
        assert s[i + |w|] == m[0];
      }
    } else if i + |w| <= |s| {
      var d := |a| - i;
      assert s[i..i + |w|][d] == m[0];
      assert IsWordChar(w[d]) by {
        assert w[d] in w;
      }
    }
  }

  /** A keyword match inside `b` is unchanged when what precedes it is not a word character. */
  lemma WordAtShift(a: string, b: string, k: nat, w: string)
    requires k < |b|
    requires k > 0 || (|a| > 0 && !IsWordChar(a[|a| - 1]))
    ensures WordAt(a + b, |a| + k, w) == WordAt(b, k, w)
  {
    var s := a + b;
    var j := |a| + k;
    if k + |w| <= |b| {
      assert s[j..j + |w|] == b[k..k + |w|];
    }
    assert s[j] == b[k];
    assert s[j - 1] == if k > 0 then b[k - 1] else a[|a| - 1];
    if k + |w| < |b| {
      assert s[j + |w|] == b[k + |w|];
    }
  }

  /** Inside `a`, the OR pattern matches in `a + m` as it does in `a` when `m` starts with a space. */
  lemma OrMatchBefore(a: string, m: string, i: nat)
    requires i < |a| && |m| > 0 && m[0] == ' '
    ensures MatchAt(OrPattern, a + m, i) == MatchAt(OrPattern, a, i)
  {
    RunPrefix(a, m, i, OrGlyphs);
    WordAtPrefix(a, m, i, "OR");
    WordAtPrefix(a, m, i, "or");
  }

  /**
   * Inside `b`, the OR pattern matches in `c + b` as it does in `b` when a
   * space stands at the seam.
   */
  lemma OrMatchAfter(c: string, b: string, k: nat, j: nat)
    requires k < |b| && j == |c| + k
    requires (|c| > 0 && c[|c| - 1] == ' ') || b[0] == ' '
    ensures MatchAt(OrPattern, c + b, j) == MatchAt(OrPattern, b, k)
  {
    var s := c + b;
    RunShift(c, b, k, OrGlyphs);
    if k == 0 && b[0] == ' ' {
      assert s[|c|] == ' ';
      assert !WordAt(s, |c|, "OR") && !WordAt(s, |c|, "or") by {
        if |c| + 2 <= |s| {
          assert s[|c|..|c| + 2][0] == ' ';
        }
      }
      assert !WordAt(b, 0, "OR") && !WordAt(b, 0, "or") by {
        if 2 <= |b| {
          assert b[0..2][0] == ' ';
        }
      }
    } else {
      WordAtShift(c, b, k, "OR");
      WordAtShift(c, b, k, "or");
    }
  }

  lemma AppendAssociates(x: string, y: string, z: string)
    ensures x + (y + z) == x + y + z
  {
  }

  /** One position of the OR scan: a match is replaced and skipped, anything else is copied. */
  lemma OrScanAt(s: string, i: nat, n: nat, x: string, next: nat)
    requires i < |s| && n == MatchAt(OrPattern, s, i)
    requires x == (if n > 0 then OrOp else [s[i]]) && next == i + (if n > 0 then n else 1)
    ensures SubFrom(OrPattern, s, i, OrOp) == x + SubFrom(OrPattern, s, next, OrOp)
  {
  }

  /** Up to a following space, the OR step scans `a + m` as it scans `a`. */
  lemma {:induction false} OrStepBefore(a: string, m: string, i: nat)
    requires i <= |a| && |m| > 0 && m[0] == ' '
    ensures SubFrom(OrPattern, a + m, i, OrOp) == SubFrom(OrPattern, a, i, OrOp) + SubFrom(OrPattern, a + m, |a|, OrOp)
    decreases |a| - i
  {
    if i < |a| {
      var n := MatchAt(OrPattern, a, i);
      var next := i + (if n > 0 then n else 1);
      OrStepBefore(a, m, next);
      OrStepBeforeAt(a, m, i, next);
    }
  }

  lemma OrStepBeforeAt(a: string, m: string, i: nat, next: nat)
    requires i < |a| && |m| > 0 && m[0] == ' '
    requires next == i + (if MatchAt(OrPattern, a, i) > 0 then MatchAt(OrPattern, a, i) else 1)
    requires SubFrom(OrPattern, a + m, next, OrOp) == SubFrom(OrPattern, a, next, OrOp) + SubFrom(OrPattern, a + m, |a|, OrOp)
    ensures SubFrom(OrPattern, a + m, i, OrOp) == SubFrom(OrPattern, a, i, OrOp) + SubFrom(OrPattern, a + m, |a|, OrOp)
  {
    var s := a + m;
    OrMatchBefore(a, m, i);
    var n := MatchAt(OrPattern, a, i);
    var x := if n > 0 then OrOp else [a[i]];
    assert s[i] == a[i];
    OrScanAt(s, i, n, x, next);
    OrScanAt(a, i, n, x, next);
    AppendAssociates(x, SubFrom(OrPattern, a, next, OrOp), SubFrom(OrPattern, s, |a|, OrOp));
  }

  /** After a space at the seam, the OR step scans `c + b` from `j = |c| + k` as it scans `b` from `k`. */
  lemma {:induction false} OrStepAfter(c: string, b: string, k: nat, j: nat)
    requires k <= |b| && j == |c| + k
    requires (|c| > 0 && c[|c| - 1] == ' ') || (|b| > 0 && b[0] == ' ')
    ensures SubFrom(OrPattern, c + b, j, OrOp) == SubFrom(OrPattern, b, k, OrOp)
    decreases |b| - k
  {
    if k < |b| {
      var n := MatchAt(OrPattern, b, k);
      var step := if n > 0 then n else 1;
      var k2, j2 := k + step, j + step;
      OrStepAfter(c, b, k2, j2);
      OrStepAfterAt(c, b, k, j, k2, j2);
    }
  }

  lemma OrStepAfterAt(c: string, b: string, k: nat, j: nat, k2: nat, j2: nat)
    requires k < |b| && j == |c| + k
    requires (|c| > 0 && c[|c| - 1] == ' ') || b[0] == ' '
    requires k2 == k + (if MatchAt(OrPattern, b, k) > 0 then MatchAt(OrPattern, b, k) else 1)
    requires j2 == |c| + k2
    requires SubFrom(OrPattern, c + b, j2, OrOp) == SubFrom(OrPattern, b, k2, OrOp)
    ensures SubFrom(OrPattern, c + b, j, OrOp) == SubFrom(OrPattern, b, k, OrOp)
  {
    var s := c + b;
    OrMatchAfter(c, b, k, j);
    var n := MatchAt(OrPattern, b, k);
    var x := if n > 0 then OrOp else [b[k]];
    assert s[j] == b[k];
    OrScanAt(s, j, n, x, j2);
    OrScanAt(b, k, n, x, k2);
  }

  /** The OR scan copies the keyword ` xor ` character by character: the `or` in it has no word boundary before it. */
  lemma KeywordCopied(b: string)
    ensures SubFrom(OrPattern, XorOp + b, 0, OrOp) == XorOp + SubFrom(OrPattern, XorOp + b, |XorOp|, OrOp)
  {
    var m := XorOp + b;
    assert m[0] == ' ' && m[1] == 'x' && m[2] == 'o' && m[3] == 'r' && m[4] == ' ';
    assert MatchAt(OrPattern, m, 0) == 0;
    assert MatchAt(OrPattern, m, 1) == 0;
    OrKeywordNeedsBoundary(m, 2);
    assert MatchAt(OrPattern, m, 3) == 0 by {
      if 5 <= |m| {
        assert m[3..5][1] == ' ';
      }
    }
    assert MatchAt(OrPattern, m, 4) == 0;
    OrScanAt(m, 0, 0, [' '], 1);
    OrScanAt(m, 1, 0, ['x'], 2);
    OrScanAt(m, 2, 0, ['o'], 3);
    OrScanAt(m, 3, 0, ['r'], 4);
    OrScanAt(m, 4, 0, [' '], |XorOp|);
    var t := SubFrom(OrPattern, m, |XorOp|, OrOp);
    assert [' '] + (['x'] + (['o'] + (['r'] + ([' '] + t)))) == XorOp + t;
  }

  /**
   * The ` xor ` keyword inserted by the XOR step passes the OR step
   * unchanged wherever it stands: the OR step works on the text before it
   * and on the text after it as if the keyword were not there.
   */
  lemma XorKeywordSurvivesOr(a: string, b: string)
    ensures Sub(OrPattern, a + XorOp + b, OrOp) == Sub(OrPattern, a, OrOp) + XorOp + Sub(OrPattern, b, OrOp)
  {
    var m := XorOp + b;
    var before := SubFrom(OrPattern, a, 0, OrOp);
    var after := SubFrom(OrPattern, b, 0, OrOp);
    calc {
      Sub(OrPattern, a + XorOp + b, OrOp);
      { assert a + XorOp + b == a + m; }
      SubFrom(OrPattern, a + m, 0, OrOp);
      { OrStepBefore(a, m, 0); }
      before + SubFrom(OrPattern, a + m, |a|, OrOp);
      { OrStepAfter(a, m, 0, |a|); }
      before + SubFrom(OrPattern, m, 0, OrOp);
      { KeywordCopied(b); }
      before + (XorOp + SubFrom(OrPattern, m, |XorOp|, OrOp));
      { OrStepAfter(XorOp, b, 0, |XorOp|); }
      before + (XorOp + after);
      { AppendAssociates(before, XorOp, after); }
      before + XorOp + after;
    }
  }

  /** A `^` glyph becomes the ` xor ` keyword. */
  lemma CaretBecomesXor()
    ensures Sub(XorPattern, "p^q", XorOp) == "p xor q"
  {
    var t := "p^q";
    assert MatchAt(XorPattern, t, 2) == 0;
    assert MatchAt(XorPattern, t, 1) == 1;
    assert MatchAt(XorPattern, t, 0) == 0;
  }

  /** A `<->` arrow becomes the ` iff ` keyword. */
  lemma ArrowBecomesIff()
    ensures Sub(IffPattern, "p<->q", IffOp) == "p iff q"
  {
    var t := "p<->q";
    assert MatchAt(IffPattern, t, 4) == 0;
    assert MatchAt(IffPattern, t, 1) == 3;
    assert MatchAt(IffPattern, t, 0) == 0;
  }
}
