/**
 * The expression tree of compiled propositions: variables, negation, the
 * binary implication and biconditional, and the n-ary conjunction,
 * disjunction and exclusive disjunction. Each node knows its shape
 * equality, its free variables, its post-order list of compound
 * sub-sentences, its display text, its bitwise source text, and the 0/1
 * value that source text computes.
 */
module Fol {
  import opened Helpers

  datatype Token =
    | Variable(name: string)
    | Negation(negated: Token)
    | Implication(left: Token, right: Token)
    | Biconditional(left: Token, right: Token)
    | Conjunction(operands: seq<Token>)
    | Disjunction(operands: seq<Token>)
    | XDisjunction(operands: seq<Token>)
  {
    predicate IsBinary()
    {
      Implication? || Biconditional?
    }

    predicate IsNary()
    {
      Conjunction? || Disjunction? || XDisjunction?
    }
  }

  /** The node class, as `type(node)` distinguishes it. */
  datatype Kind = VariableKind | NegationKind | ImplicationKind | BiconditionalKind
                | ConjunctionKind | DisjunctionKind | XDisjunctionKind

  function KindOf(t: Token): Kind
  {
    match t
    case Variable(_) => VariableKind
    case Negation(_) => NegationKind
    case Implication(_, _) => ImplicationKind
    case Biconditional(_, _) => BiconditionalKind
    case Conjunction(_) => ConjunctionKind
    case Disjunction(_) => DisjunctionKind
    case XDisjunction(_) => XDisjunctionKind
  }

  // ---------------------------------------------------------------------
  // Shape equality (__eq__)
  // ---------------------------------------------------------------------

  /** `p` lists each of `0 .. n-1` exactly once. */
  ghost predicate IsPermutation(p: seq<nat>, n: nat)
  {
    |p| == n &&
    (forall i :: 0 <= i < n ==> p[i] < n) &&
    (forall i, j :: 0 <= i < j < n ==> p[i] != p[j]) &&
    (forall k :: 0 <= k < n ==> k in p)
  }

  /** The position of `v` in `p`. */
  function IndexOf(p: seq<nat>, v: nat): (i: nat)
    requires v in p
    ensures i < |p| && p[i] == v
  {
    if p[0] == v then 0 else 1 + IndexOf(p[1..], v)
  }

  function Identity(n: nat): (p: seq<nat>)
    ensures |p| == n && forall i :: 0 <= i < n ==> p[i] == i
  {
    seq(n, i => i)
  }

  lemma IdentityIsPermutation(n: nat)
    ensures IsPermutation(Identity(n), n)
  {
    var p := Identity(n);
    forall k | 0 <= k < n
      ensures k in p
    {
      assert p[k] == k;
    }
  }

  /** The inverse of a permutation is one. */
  lemma InverseIsPermutation(p: seq<nat>, n: nat) returns (q: seq<nat>)
    requires IsPermutation(p, n)
    ensures IsPermutation(q, n)
    ensures forall i :: 0 <= i < n ==> q[p[i]] == i
  {
    q := seq(n, j requires 0 <= j < n => IndexOf(p, j));
    forall i | 0 <= i < n
      ensures q[p[i]] == i
    {
      var k := IndexOf(p, p[i]);
      assert p[k] == p[i];
    }
    forall k | 0 <= k < n
      ensures k in q
    {
      assert q[p[k]] == k;
    }
  }

  /** Composing two permutations gives one. */
  lemma ComposeIsPermutation(p: seq<nat>, q: seq<nat>, n: nat) returns (c: seq<nat>)
    requires IsPermutation(p, n) && IsPermutation(q, n)
    ensures IsPermutation(c, n)
    ensures forall i :: 0 <= i < n ==> c[i] == q[p[i]]
  {
    c := seq(n, i requires 0 <= i < n => q[p[i]]);
    forall k | 0 <= k < n
      ensures k in c
    {
      var j := IndexOf(q, k);
      var i := IndexOf(p, j);
      assert c[i] == k;
    }
  }

  /**
   * Shape equality: a variable matches a variable of the same name,
   * negation and implication match operand by operand, a biconditional also
   * matches its mirror image, and an n-ary node matches a node of the same
   * class whose operands, in some order, match its own one for one.
   */
  ghost predicate Equal(a: Token, b: Token)
    decreases a
  {
    match a
    case Variable(n) => b.Variable? && b.name == n
    case Negation(x) => b.Negation? && Equal(x, b.negated)
    case Implication(l, r) => b.Implication? && Equal(l, b.left) && Equal(r, b.right)
    case Biconditional(l, r) =>
      b.Biconditional? &&
      ((Equal(l, b.left) && Equal(r, b.right)) || (Equal(r, b.left) && Equal(l, b.right)))
    case Conjunction(xs) => b.Conjunction? && OperandsMatch(a, xs, b.operands)
    case Disjunction(xs) => b.Disjunction? && OperandsMatch(a, xs, b.operands)
    case XDisjunction(xs) => b.XDisjunction? && OperandsMatch(a, xs, b.operands)
  }

  /** The operands of `a`, in some order, match `ys` one for one. */
  ghost predicate OperandsMatch(a: Token, xs: seq<Token>, ys: seq<Token>)
    requires forall i :: 0 <= i < |xs| ==> xs[i] < a
    decreases a, 0
  {
    |xs| == |ys| &&
    exists p :: IsPermutation(p, |xs|) && forall i :: 0 <= i < |xs| ==> Equal(xs[i], ys[p[i]])
  }

  // ---------------------------------------------------------------------
  // Properties of shape equality
  // ---------------------------------------------------------------------

  /** A variable equals exactly the variables of the same name. */
  lemma VariableEqual(name: string, b: Token)
    ensures Equal(Variable(name), b) <==> b == Variable(name)
  {
  }

  /** Nodes of different classes are never equal. */
  lemma DifferentKindsNeverEqual(a: Token, b: Token)
    requires KindOf(a) != KindOf(b)
    ensures !Equal(a, b)
  {
  }

  /** Implication compares left with left and right with right. */
  lemma ImplicationEqual(l: Token, r: Token, b: Token)
    ensures Equal(Implication(l, r), b) <==>
      b.Implication? && Equal(l, b.left) && Equal(r, b.right)
  {
  }

  /** Two n-ary nodes of one class match iff a permutation pairs their operands. */
  lemma NaryEqual(a: Token, b: Token)
    requires a.IsNary() && KindOf(a) == KindOf(b)
    ensures Equal(a, b) <==>
      |a.operands| == |b.operands| &&
      exists p :: IsPermutation(p, |a.operands|) &&
        forall i :: 0 <= i < |a.operands| ==> Equal(a.operands[i], b.operands[p[i]])
  {
  }

  /** Every tree equals itself: the identity permutation pairs n-ary operands. */
  lemma {:induction false} EqualReflexive(a: Token)
    ensures Equal(a, a)
    decreases a
  {
    match a
    case Variable(_) =>
    case Negation(x) => EqualReflexive(x);
    case Implication(l, r) => EqualReflexive(l); EqualReflexive(r);
    case Biconditional(l, r) => EqualReflexive(l); EqualReflexive(r);
    case Conjunction(xs) => OperandsReflexive(a, xs);
    case Disjunction(xs) => OperandsReflexive(a, xs);
    case XDisjunction(xs) => OperandsReflexive(a, xs);
  }

  lemma {:induction false} OperandsReflexive(a: Token, xs: seq<Token>)
    requires forall i :: 0 <= i < |xs| ==> xs[i] < a
    ensures OperandsMatch(a, xs, xs)
    decreases a, 0
  {
    var p := Identity(|xs|);
    IdentityIsPermutation(|xs|);
    forall i | 0 <= i < |xs|
      ensures Equal(xs[i], xs[p[i]])
    {
      EqualReflexive(xs[i]);
    }
  }

  /** A biconditional equals its mirror image. */
  lemma BiconditionalMirror(l: Token, r: Token)
    ensures Equal(Biconditional(l, r), Biconditional(r, l))
  {
    EqualReflexive(l);
    EqualReflexive(r);
  }

  /** Shape equality is symmetric. */
  lemma {:induction false} EqualSymmetric(a: Token, b: Token)
    requires Equal(a, b)
    ensures Equal(b, a)
    decreases a
  {
    match a
    case Variable(_) =>
    case Negation(x) => EqualSymmetric(x, b.negated);
    case Implication(l, r) => EqualSymmetric(l, b.left); EqualSymmetric(r, b.right);
    case Biconditional(l, r) =>
      if Equal(l, b.left) && Equal(r, b.right) {
        EqualSymmetric(l, b.left);
        EqualSymmetric(r, b.right);
      } else {
        EqualSymmetric(r, b.left);
        EqualSymmetric(l, b.right);
      }
    case Conjunction(xs) => OperandsSymmetric(a, xs, b, b.operands);
    case Disjunction(xs) => OperandsSymmetric(a, xs, b, b.operands);
    case XDisjunction(xs) => OperandsSymmetric(a, xs, b, b.operands);
  }

  lemma {:induction false} OperandsSymmetric(a: Token, xs: seq<Token>, b: Token, ys: seq<Token>)
    requires forall i :: 0 <= i < |xs| ==> xs[i] < a
    requires forall i :: 0 <= i < |ys| ==> ys[i] < b
    requires OperandsMatch(a, xs, ys)
    ensures OperandsMatch(b, ys, xs)
    decreases a, 0
  {
    var p :| IsPermutation(p, |xs|) && forall i :: 0 <= i < |xs| ==> Equal(xs[i], ys[p[i]]);
    var q := InverseIsPermutation(p, |xs|);
    forall j | 0 <= j < |ys|
      ensures Equal(ys[j], xs[q[j]])
    {
      var i := IndexOf(p, j);
      assert q[j] == i;
      EqualSymmetric(xs[i], ys[j]);
    }
  }

  /** Shape equality is transitive. */
  lemma {:induction false} EqualTransitive(a: Token, b: Token, c: Token)
    requires Equal(a, b) && Equal(b, c)
    ensures Equal(a, c)
    decreases a
  {
    match a
    case Variable(_) =>
    case Negation(x) => EqualTransitive(x, b.negated, c.negated);
    case Implication(l, r) =>
      EqualTransitive(l, b.left, c.left);
      EqualTransitive(r, b.right, c.right);
    case Biconditional(l, r) => BiconditionalTransitive(a, b, c);
    case Conjunction(xs) => OperandsTransitive(a, xs, b.operands, c.operands);
    case Disjunction(xs) => OperandsTransitive(a, xs, b.operands, c.operands);
    case XDisjunction(xs) => OperandsTransitive(a, xs, b.operands, c.operands);
  }

  lemma {:induction false} BiconditionalTransitive(a: Token, b: Token, c: Token)
    requires a.Biconditional? && Equal(a, b) && Equal(b, c)
    ensures Equal(a, c)
    decreases a, 0
  {
    var (l, r) := (a.left, a.right);
    if Equal(l, b.left) && Equal(r, b.right) {
      if Equal(b.left, c.left) && Equal(b.right, c.right) {
        EqualTransitive(l, b.left, c.left);
        EqualTransitive(r, b.right, c.right);
      } else {
        EqualTransitive(l, b.left, c.right);
        EqualTransitive(r, b.right, c.left);
      }
    } else {
      if Equal(b.left, c.left) && Equal(b.right, c.right) {
        EqualTransitive(r, b.left, c.left);
        EqualTransitive(l, b.right, c.right);
      } else {
        EqualTransitive(r, b.left, c.right);
        EqualTransitive(l, b.right, c.left);
      }
    }
  }

  lemma {:induction false} OperandsTransitive(a: Token, xs: seq<Token>, ys: seq<Token>, zs: seq<Token>)
    requires forall i :: 0 <= i < |xs| ==> xs[i] < a
    requires OperandsMatch(a, xs, ys)
    requires |ys| == |zs| && exists q :: IsPermutation(q, |ys|) && forall j :: 0 <= j < |ys| ==> Equal(ys[j], zs[q[j]])
    ensures OperandsMatch(a, xs, zs)
    decreases a, 0
  {
    var p :| IsPermutation(p, |xs|) && forall i :: 0 <= i < |xs| ==> Equal(xs[i], ys[p[i]]);
    var q :| IsPermutation(q, |ys|) && forall j :: 0 <= j < |ys| ==> Equal(ys[j], zs[q[j]]);
    var c := ComposeIsPermutation(p, q, |xs|);
    forall i | 0 <= i < |xs|
      ensures Equal(xs[i], zs[c[i]])
    {
      EqualTransitive(xs[i], ys[p[i]], zs[q[p[i]]]);
    }
  }

  /**
   * The n-ary comparison as written: it tries the permutations of the
   * positions of the left operands against the right node's operands without
   * comparing the operand counts. With fewer left operands than right ones
   * it only looks at a prefix-sized choice of the right operands; with more
   * it indexes past the end of the right operands.
   */
  ghost predicate NaryEqualAsWritten(xs: seq<Token>, ys: seq<Token>)
    requires |xs| <= |ys|
  {
    exists p :: IsPermutation(p, |xs|) && forall i :: 0 <= i < |xs| ==> Equal(xs[i], ys[p[i]])
  }

  /**
   * As written, a conjunction of two operands equals a conjunction of the
   * same two and a third; shape equality with the operand count check does
   * not.
   */
  lemma NaryEqualIgnoresExtraOperands()
    ensures var (a, b, c) := (Variable("a"), Variable("b"), Variable("c"));
      NaryEqualAsWritten([a, b], [a, b, c]) && !Equal(Conjunction([a, b]), Conjunction([a, b, c]))
  {
    var p: seq<nat> := [0, 1];
    assert p[0] == 0 && p[1] == 1;
    assert IsPermutation(p, 2);
  }

  /** Equal n-ary nodes have the same number of operands. */
  lemma EqualOperandCounts(a: Token, b: Token)
    requires a.IsNary() && Equal(a, b)
    ensures b.IsNary() && |a.operands| == |b.operands|
  {
  }

  // ---------------------------------------------------------------------
  // Free variables and sentences
  // ---------------------------------------------------------------------

  /** The variable names of `t`, left to right, with repetitions. */
  function Occurrences(t: Token): seq<string>
    decreases t
  {
    match t
    case Variable(n) => [n]
    case Negation(x) => Occurrences(x)
    case Implication(l, r) => Occurrences(l) + Occurrences(r)
    case Biconditional(l, r) => Occurrences(l) + Occurrences(r)
    case Conjunction(xs) => Flatten(seq(|xs|, i requires 0 <= i < |xs| => Occurrences(xs[i])))
    case Disjunction(xs) => Flatten(seq(|xs|, i requires 0 <= i < |xs| => Occurrences(xs[i])))
    case XDisjunction(xs) => Flatten(seq(|xs|, i requires 0 <= i < |xs| => Occurrences(xs[i])))
  }

  /**
   * `variables`: a variable lists its own name; every other node
   * de-duplicates the concatenation of its operands' lists.
   */
  function Variables(t: Token): (r: seq<string>)
    ensures NoDuplicates(r)
    ensures forall n :: n in r <==> n in Occurrences(t)
    decreases t
  {
    match t
    case Variable(n) => [n]
    case Negation(x) => Unique(Variables(x))
    case Implication(l, r) => Unique(Variables(l) + Variables(r))
    case Biconditional(l, r) => Unique(Variables(l) + Variables(r))
    case Conjunction(xs) => NaryVariables(t, xs)
    case Disjunction(xs) => NaryVariables(t, xs)
    case XDisjunction(xs) => NaryVariables(t, xs)
  }

  function NaryVariables(t: Token, xs: seq<Token>): (r: seq<string>)
    requires forall i :: 0 <= i < |xs| ==> xs[i] < t
    requires t.IsNary() && xs == t.operands
    ensures NoDuplicates(r)
    ensures forall n :: n in r <==> n in Occurrences(t)
    decreases t, 0
  {
    var parts := seq(|xs|, i requires 0 <= i < |xs| => Variables(xs[i]));
    var occs := seq(|xs|, i requires 0 <= i < |xs| => Occurrences(xs[i]));
    forall n
      ensures n in Flatten(parts) <==> n in Flatten(occs)
    {
      FlattenMember(parts, n);
      FlattenMember(occs, n);
      if n in Flatten(parts) {
        var i :| 0 <= i < |parts| && n in parts[i];
        assert n in occs[i];
      }
      if n in Flatten(occs) {
        var i :| 0 <= i < |occs| && n in occs[i];
        assert n in parts[i];
      }
    }
    assert Occurrences(t) == Flatten(occs);
    Unique(Flatten(parts))
  }

  /**
   * The free-variable list is the list of variable occurrences with every
   * name kept only at its first occurrence.
   */
  lemma {:induction false} VariablesFirstOccurrence(t: Token)
    ensures Variables(t) == Unique(Occurrences(t))
    decreases t
  {
    match t
    case Variable(n) =>
      UniqueIdentity([n]);
    case Negation(x) =>
      VariablesFirstOccurrence(x);
      var o := Occurrences(x);
      UniqueAbsorbs([], o, [], {});
      assert [] + Unique(o) + [] == Unique(o) && [] + o + [] == o;
    case Implication(l, r) => BinaryVariablesFirstOccurrence(t);
    case Biconditional(l, r) => BinaryVariablesFirstOccurrence(t);
    case Conjunction(xs) => NaryVariablesFirstOccurrence(t);
    case Disjunction(xs) => NaryVariablesFirstOccurrence(t);
    case XDisjunction(xs) => NaryVariablesFirstOccurrence(t);
  }

  lemma {:induction false} BinaryVariablesFirstOccurrence(t: Token)
    requires t.IsBinary()
    ensures Variables(t) == Unique(Occurrences(t))
    decreases t, 0
  {
    VariablesFirstOccurrence(t.left);
    VariablesFirstOccurrence(t.right);
    var ol := Occurrences(t.left);
    var oright := Occurrences(t.right);
    assert Variables(t) == Unique(Unique(ol) + Unique(oright));
    assert Occurrences(t) == ol + oright;
    UniqueOfUniques(ol, oright);
  }

  lemma {:induction false} NaryVariablesFirstOccurrence(t: Token)
    requires t.IsNary()
    ensures Variables(t) == Unique(Occurrences(t))
    decreases t, 0
  {
    var xs := t.operands;
    var parts := seq(|xs|, i requires 0 <= i < |xs| => Variables(xs[i]));
    var occs := seq(|xs|, i requires 0 <= i < |xs| => Occurrences(xs[i]));
    forall i | 0 <= i < |xs|
      ensures parts[i] == Unique(occs[i])
    {
      VariablesFirstOccurrence(xs[i]);
    }
    UniqueFlattenParts(occs, parts, {});
    assert Occurrences(t) == Flatten(occs);
  }

  /** `s` occurs somewhere in `t`, `t` itself included. */
  predicate Subterm(s: Token, t: Token)
    decreases t
  {
    s == t ||
    match t
    case Variable(_) => false
    case Negation(x) => Subterm(s, x)
    case Implication(l, r) => Subterm(s, l) || Subterm(s, r)
    case Biconditional(l, r) => Subterm(s, l) || Subterm(s, r)
    case Conjunction(xs) => exists i :: 0 <= i < |xs| && Subterm(s, xs[i])
    case Disjunction(xs) => exists i :: 0 <= i < |xs| && Subterm(s, xs[i])
    case XDisjunction(xs) => exists i :: 0 <= i < |xs| && Subterm(s, xs[i])
  }

  /**
   * `sentences`, in post-order: a variable has none; every other node lists
   * its operands' sentences left to right and then itself.
   */
  function Sentences(t: Token): (r: seq<Token>)
    ensures t.Variable? <==> r == []
    ensures !t.Variable? ==> r[|r| - 1] == t
    ensures forall k :: 0 <= k < |r| ==> !r[k].Variable?
    decreases t
  {
    match t
    case Variable(_) => []
    case Negation(x) => Sentences(x) + [t]
    case Implication(l, r) => Sentences(l) + Sentences(r) + [t]
    case Biconditional(l, r) => Sentences(l) + Sentences(r) + [t]
    case Conjunction(xs) => NarySentences(t, xs) + [t]
    case Disjunction(xs) => NarySentences(t, xs) + [t]
    case XDisjunction(xs) => NarySentences(t, xs) + [t]
  }

  /** The operands' sentence lists, concatenated. */
  function NarySentences(t: Token, xs: seq<Token>): (r: seq<Token>)
    requires forall i :: 0 <= i < |xs| ==> xs[i] < t
    ensures forall k :: 0 <= k < |r| ==> !r[k].Variable?
    decreases t, 0
  {
    var parts := seq(|xs|, i requires 0 <= i < |xs| => Sentences(xs[i]));
    forall k | 0 <= k < |Flatten(parts)|
      ensures !Flatten(parts)[k].Variable?
    {
      var s := Flatten(parts)[k];
      FlattenMember(parts, s);
    }
    Flatten(parts)
  }

  /** The sentences of `t` are exactly its non-variable sub-terms. */
  lemma {:induction false} SentencesAreCompoundSubterms(t: Token, s: Token)
    ensures s in Sentences(t) <==> Subterm(s, t) && !s.Variable?
    decreases t
  {
    match t
    case Variable(_) =>
    case Negation(x) =>
      SentencesAreCompoundSubterms(x, s);
    case Implication(l, r) =>
      SentencesAreCompoundSubterms(l, s);
      SentencesAreCompoundSubterms(r, s);
    case Biconditional(l, r) =>
      SentencesAreCompoundSubterms(l, s);
      SentencesAreCompoundSubterms(r, s);
    case Conjunction(xs) => NarySentencesAreSubterms(t, s);
    case Disjunction(xs) => NarySentencesAreSubterms(t, s);
    case XDisjunction(xs) => NarySentencesAreSubterms(t, s);
  }

  lemma {:induction false} NarySentencesAreSubterms(t: Token, s: Token)
    requires t.IsNary()
    ensures s in Sentences(t) <==> Subterm(s, t) && !s.Variable?
    decreases t, 0
  {
    var xs := t.operands;
    var parts := seq(|xs|, i requires 0 <= i < |xs| => Sentences(xs[i]));
    assert Sentences(t) == Flatten(parts) + [t];
    FlattenMember(parts, s);
    forall i | 0 <= i < |xs|
      ensures s in parts[i] <==> Subterm(s, xs[i]) && !s.Variable?
    {
      SentencesAreCompoundSubterms(xs[i], s);
    }
    if s != t && Subterm(s, t) && !s.Variable? {
      var i :| 0 <= i < |xs| && Subterm(s, xs[i]);
      assert s in parts[i];
    }
  }

  function Sum(ns: seq<nat>): nat
  {
    if |ns| == 0 then 0 else ns[0] + Sum(ns[1..])
  }

  /** The number of non-variable nodes of `t`. */
  function CompoundCount(t: Token): nat
    decreases t
  {
    match t
    case Variable(_) => 0
    case Negation(x) => 1 + CompoundCount(x)
    case Implication(l, r) => 1 + CompoundCount(l) + CompoundCount(r)
    case Biconditional(l, r) => 1 + CompoundCount(l) + CompoundCount(r)
    case Conjunction(xs) => 1 + Sum(seq(|xs|, i requires 0 <= i < |xs| => CompoundCount(xs[i])))
    case Disjunction(xs) => 1 + Sum(seq(|xs|, i requires 0 <= i < |xs| => CompoundCount(xs[i])))
    case XDisjunction(xs) => 1 + Sum(seq(|xs|, i requires 0 <= i < |xs| => CompoundCount(xs[i])))
  }

  lemma {:induction false} FlattenLength<T>(ss: seq<seq<T>>, ns: seq<nat>)
    requires |ss| == |ns| && forall i :: 0 <= i < |ss| ==> |ss[i]| == ns[i]
    ensures |Flatten(ss)| == Sum(ns)
  {
    if |ss| > 0 {
      FlattenLength(ss[1..], ns[1..]);
    }
  }

  /** There is one sentence per non-variable node. */
  lemma {:induction false} SentencesCount(t: Token)
    ensures |Sentences(t)| == CompoundCount(t)
    decreases t
  {
    match t
    case Variable(_) =>
    case Negation(x) => SentencesCount(x);
    case Implication(l, r) => SentencesCount(l); SentencesCount(r);
    case Biconditional(l, r) => SentencesCount(l); SentencesCount(r);
    case Conjunction(xs) => NarySentencesCount(t);
    case Disjunction(xs) => NarySentencesCount(t);
    case XDisjunction(xs) => NarySentencesCount(t);
  }

  lemma {:induction false} NarySentencesCount(t: Token)
    requires t.IsNary()
    ensures |Sentences(t)| == CompoundCount(t)
    decreases t, 0
  {
    var xs := t.operands;
    var parts := seq(|xs|, i requires 0 <= i < |xs| => Sentences(xs[i]));
    var counts := seq(|xs|, i requires 0 <= i < |xs| => CompoundCount(xs[i]));
    forall i | 0 <= i < |xs|
      ensures |parts[i]| == counts[i]
    {
      SentencesCount(xs[i]);
    }
    FlattenLength(parts, counts);
    assert Sentences(t) == Flatten(parts) + [t];
    assert CompoundCount(t) == 1 + Sum(counts);
  }

  // ---------------------------------------------------------------------
  // Rendering (display_text)
  // ---------------------------------------------------------------------

  const ImplicationSymbol: char := '\U{2192}'
  const BiconditionalSymbol: char := '\U{2194}'
  const ConjunctionSymbol: char := '\U{2227}'
  const DisjunctionSymbol: char := '\U{2228}'
  const XDisjunctionSymbol: char := '\U{22BB}'
  const NegationSymbol: char := '\U{00AC}'

  /** `sep.join(parts)`. */
  function Join(sep: string, parts: seq<string>): string
  {
    if |parts| == 0 then ""
    else if |parts| == 1 then parts[0]
    else parts[0] + sep + Join(sep, parts[1..])
  }

  /** The display text: infix symbols, one pair of parentheses per binary or n-ary node. */
  function DisplayText(t: Token): string
    decreases t
  {
    match t
    case Variable(n) => n
    case Negation(x) => [NegationSymbol] + DisplayText(x)
    case Implication(l, r) => "(" + DisplayText(l) + [' ', ImplicationSymbol, ' '] + DisplayText(r) + ")"
    case Biconditional(l, r) => "(" + DisplayText(l) + [' ', BiconditionalSymbol, ' '] + DisplayText(r) + ")"
    case Conjunction(xs) => "(" + Join([' ', ConjunctionSymbol, ' '], OperandTexts(t, xs)) + ")"
    case Disjunction(xs) => "(" + Join([' ', DisjunctionSymbol, ' '], OperandTexts(t, xs)) + ")"
    case XDisjunction(xs) => "(" + Join([' ', XDisjunctionSymbol, ' '], OperandTexts(t, xs)) + ")"
  }

  function OperandTexts(t: Token, xs: seq<Token>): (r: seq<string>)
    requires forall i :: 0 <= i < |xs| ==> xs[i] < t
    ensures |r| == |xs|
    decreases t, 0
  {
    seq(|xs|, i requires 0 <= i < |xs| => DisplayText(xs[i]))
  }

  /** The number of occurrences of `c` in `s`. */
  function CountChar(s: string, c: char): nat
  {
    if |s| == 0 then 0 else (if s[0] == c then 1 else 0) + CountChar(s[1..], c)
  }

  lemma {:induction false} CountCharAppend(a: string, b: string, c: char)
    ensures CountChar(a + b, c) == CountChar(a, c) + CountChar(b, c)
  {
    if |a| > 0 {
      assert (a + b)[0] == a[0];
      assert (a + b)[1..] == a[1..] + b;
      CountCharAppend(a[1..], b, c);
    } else {
      assert a + b == b;
    }
  }

  /** As many closing as opening parentheses. */
  predicate Balanced(s: string)
  {
    CountChar(s, '(') == CountChar(s, ')')
  }

  lemma BalancedAppend(a: string, b: string)
    requires Balanced(a) && Balanced(b)
    ensures Balanced(a + b)
  {
    CountCharAppend(a, b, '(');
    CountCharAppend(a, b, ')');
  }

  lemma {:induction false} JoinBalanced(sep: string, parts: seq<string>)
    requires Balanced(sep)
    requires forall i :: 0 <= i < |parts| ==> Balanced(parts[i])
    ensures Balanced(Join(sep, parts))
  {
    if |parts| > 1 {
      JoinBalanced(sep, parts[1..]);
      BalancedAppend(parts[0], sep);
      BalancedAppend(parts[0] + sep, Join(sep, parts[1..]));
    }
  }

  /** Every variable name of `t` is free of parentheses. */
  predicate NamesWithoutParentheses(t: Token)
  {
    forall n :: n in Occurrences(t) ==> '(' !in n && ')' !in n
  }

  lemma {:induction false} NoParenthesesBalanced(s: string)
    requires '(' !in s && ')' !in s
    ensures Balanced(s) && CountChar(s, '(') == 0
  {
    if |s| > 0 {
      assert forall c :: c in s[1..] ==> c in s;
      NoParenthesesBalanced(s[1..]);
    }
  }

  /** Rendering wraps what it adds in matching parentheses. */
  lemma {:induction false} DisplayTextBalanced(t: Token)
    requires NamesWithoutParentheses(t)
    ensures Balanced(DisplayText(t))
    decreases t
  {
    match t
    case Variable(n) =>
      assert n in Occurrences(t);
      NoParenthesesBalanced(n);
    case Negation(x) =>
      DisplayTextBalanced(x);
      BalancedAppend([NegationSymbol], DisplayText(x));
    case Implication(l, r) =>
      BinaryNamesWithoutParentheses(t);
      DisplayTextBalanced(l);
      DisplayTextBalanced(r);
      NoParenthesesBalanced([' ', ImplicationSymbol, ' ']);
      WrapBalanced(DisplayText(l), [' ', ImplicationSymbol, ' '], DisplayText(r));
    case Biconditional(l, r) =>
      BinaryNamesWithoutParentheses(t);
      DisplayTextBalanced(l);
      DisplayTextBalanced(r);
      NoParenthesesBalanced([' ', BiconditionalSymbol, ' ']);
      WrapBalanced(DisplayText(l), [' ', BiconditionalSymbol, ' '], DisplayText(r));
    case Conjunction(xs) => NaryDisplayTextBalanced(t, [' ', ConjunctionSymbol, ' ']);
    case Disjunction(xs) => NaryDisplayTextBalanced(t, [' ', DisjunctionSymbol, ' ']);
    case XDisjunction(xs) => NaryDisplayTextBalanced(t, [' ', XDisjunctionSymbol, ' ']);
  }

  lemma BinaryNamesWithoutParentheses(t: Token)
    requires t.IsBinary() && NamesWithoutParentheses(t)
    ensures NamesWithoutParentheses(t.left) && NamesWithoutParentheses(t.right)
  {
    assert Occurrences(t) == Occurrences(t.left) + Occurrences(t.right);
  }

  lemma WrapBalanced(a: string, mid: string, b: string)
    requires Balanced(a) && Balanced(b) && CountChar(mid, '(') == 0 && CountChar(mid, ')') == 0
    ensures Balanced("(" + a + mid + b + ")")
  {
    CountCharAppend("(" + a + mid + b, ")", '(');
    CountCharAppend("(" + a + mid + b, ")", ')');
    CountCharAppend("(" + a + mid, b, '(');
    CountCharAppend("(" + a + mid, b, ')');
    CountCharAppend("(" + a, mid, '(');
    CountCharAppend("(" + a, mid, ')');
    CountCharAppend("(", a, '(');
    CountCharAppend("(", a, ')');
  }

  lemma {:induction false} NaryDisplayTextBalanced(t: Token, sep: string)
    requires t.IsNary() && NamesWithoutParentheses(t)
    requires sep == [' ', if t.Conjunction? then ConjunctionSymbol
                          else if t.Disjunction? then DisjunctionSymbol else XDisjunctionSymbol, ' ']
    ensures Balanced(DisplayText(t))
    decreases t, 0
  {
    var xs := t.operands;
    var texts := OperandTexts(t, xs);
    var occs := seq(|xs|, i requires 0 <= i < |xs| => Occurrences(xs[i]));
    assert Occurrences(t) == Flatten(occs);
    forall i | 0 <= i < |xs|
      ensures Balanced(texts[i])
    {
      forall n | n in Occurrences(xs[i])
        ensures '(' !in n && ')' !in n
      {
        FlattenMember(occs, n);
        assert n in occs[i];
      }
      DisplayTextBalanced(xs[i]);
    }
    NoParenthesesBalanced(sep);
    NoParenthesesBalanced("");
    JoinBalanced(sep, texts);
    WrapBalanced(Join(sep, texts), "", "");
    assert "(" + Join(sep, texts) + "" + "" + ")" == DisplayText(t);
  }

  /** `display` applied to a binary or n-ary node's text leaves its operands joined by the symbol. */
  lemma DisplayStripsNodeParentheses(t: Token)
    requires t.IsBinary() || t.IsNary()
    ensures "(" + Display(DisplayText(t)) + ")" == DisplayText(t)
  {
    var d := DisplayText(t);
    var inner := d[1..|d| - 1];
    assert d == "(" + inner + ")";
    DisplayUnwraps(inner);
  }

  // ---------------------------------------------------------------------
  // Source text and evaluation
  // ---------------------------------------------------------------------

  /** The binary operators of the generated Python text. */
  datatype BitOperator = AndBits | OrBits | XorBits

  function OperatorChar(op: BitOperator): char
  {
    match op
    case AndBits => '&'
    case OrBits => '|'
    case XorBits => '^'
  }

  /**
   * `source`: the Python bitwise text whose evaluation gives the node's
   * value: `(1&~x)`, `(l^1|r)`, `(l^1^r)` and operands joined by `&`, `|`
   * or `^`.
   */
  function Source(t: Token): string
    decreases t
  {
    match t
    case Variable(n) => n
    case Negation(x) => "(1&~" + Source(x) + ")"
    case Implication(l, r) => "(" + Source(l) + "^1|" + Source(r) + ")"
    case Biconditional(l, r) => "(" + Source(l) + "^1^" + Source(r) + ")"
    case Conjunction(xs) => "(" + Join("&", OperandSources(t, xs)) + ")"
    case Disjunction(xs) => "(" + Join("|", OperandSources(t, xs)) + ")"
    case XDisjunction(xs) => "(" + Join("^", OperandSources(t, xs)) + ")"
  }

  function OperandSources(t: Token, xs: seq<Token>): (r: seq<string>)
    requires forall i :: 0 <= i < |xs| ==> xs[i] < t
    ensures |r| == |xs|
    decreases t, 0
  {
    seq(|xs|, i requires 0 <= i < |xs| => Source(xs[i]))
  }

  /**
   * The source text of a sentence is never a variable name: it starts with
   * a parenthesis, so its truth-table column cannot collide with a
   * variable's.
   */
  lemma SentenceSourceIsNotAName(t: Token)
    requires !t.Variable?
    ensures |Source(t)| > 0 && Source(t)[0] == '(' && !GoodName(Source(t))
  {
  }

  type Bit = x: int | 0 <= x <= 1

  /** Python's `~` on integers. */
  function Invert(x: int): int
  {
    -x - 1
  }

  /** Python's `1 & v`: the lowest bit of `v` in two's complement. */
  function LowBit(v: int): Bit
  {
    v % 2
  }

  /** Python's `&`, `|` and `^` on operands 0 and 1, computed on one-bit vectors. */
  function Apply(op: BitOperator, a: Bit, b: Bit): Bit
  {
    var (x, y) := (a as bv1, b as bv1);
    match op
    case AndBits => (x & y) as int
    case OrBits => (x | y) as int
    case XorBits => (x ^ y) as int
  }

  /** `v0 op v1 op ... op vn`, grouped from the left as Python does. */
  function Fold(op: BitOperator, vals: seq<Bit>): Bit
    requires |vals| > 0
  {
    if |vals| == 1 then vals[0]
    else Apply(op, Fold(op, vals[..|vals| - 1]), vals[|vals| - 1])
  }

  /**
   * The generated text can be evaluated in a namespace binding `names`:
   * every variable is bound and no n-ary node is empty (the text `()` is an
   * empty tuple, not a number).
   */
  predicate Evaluable(t: Token, names: set<string>)
    decreases t
  {
    match t
    case Variable(n) => n in names
    case Negation(x) => Evaluable(x, names)
    case Implication(l, r) => Evaluable(l, names) && Evaluable(r, names)
    case Biconditional(l, r) => Evaluable(l, names) && Evaluable(r, names)
    case Conjunction(xs) => |xs| > 0 && forall i :: 0 <= i < |xs| ==> Evaluable(xs[i], names)
    case Disjunction(xs) => |xs| > 0 && forall i :: 0 <= i < |xs| ==> Evaluable(xs[i], names)
    case XDisjunction(xs) => |xs| > 0 && forall i :: 0 <= i < |xs| ==> Evaluable(xs[i], names)
  }

  /** `evaluate`: the value the source text computes in the namespace `env`. */
  function Eval(t: Token, env: map<string, Bit>): Bit
    requires Evaluable(t, env.Keys)
    decreases t
  {
    match t
    case Variable(n) => env[n]
    case Negation(x) => LowBit(Invert(Eval(x, env)))
    case Implication(l, r) => Apply(OrBits, Apply(XorBits, Eval(l, env), 1), Eval(r, env))
    case Biconditional(l, r) => Apply(XorBits, Apply(XorBits, Eval(l, env), 1), Eval(r, env))
    case Conjunction(xs) => Fold(AndBits, OperandValues(t, xs, env))
    case Disjunction(xs) => Fold(OrBits, OperandValues(t, xs, env))
    case XDisjunction(xs) => Fold(XorBits, OperandValues(t, xs, env))
  }

  function OperandValues(t: Token, xs: seq<Token>, env: map<string, Bit>): (r: seq<Bit>)
    requires forall i :: 0 <= i < |xs| ==> xs[i] < t && Evaluable(xs[i], env.Keys)
    ensures |r| == |xs|
    decreases t, 0
  {
    seq(|xs|, i requires 0 <= i < |xs| => Eval(xs[i], env))
  }

  /** The number of `true` entries. */
  function CountTrue(bs: seq<bool>): nat
  {
    if |bs| == 0 then 0 else CountTrue(bs[..|bs| - 1]) + (if bs[|bs| - 1] then 1 else 0)
  }

  /**
   * The truth value of `t` in the usual reading of the connectives: the
   * exclusive disjunction of several operands holds when an odd number of
   * them hold.
   */
  predicate Truth(t: Token, env: map<string, Bit>)
    requires Evaluable(t, env.Keys)
    decreases t
  {
    match t
    case Variable(n) => env[n] == 1
    case Negation(x) => !Truth(x, env)
    case Implication(l, r) => Truth(l, env) ==> Truth(r, env)
    case Biconditional(l, r) => Truth(l, env) == Truth(r, env)
    case Conjunction(xs) => forall i :: 0 <= i < |xs| ==> Truth(xs[i], env)
    case Disjunction(xs) => exists i :: 0 <= i < |xs| && Truth(xs[i], env)
    case XDisjunction(xs) => CountTrue(OperandTruths(t, xs, env)) % 2 == 1
  }

  function OperandTruths(t: Token, xs: seq<Token>, env: map<string, Bit>): (r: seq<bool>)
    requires forall i :: 0 <= i < |xs| ==> xs[i] < t && Evaluable(xs[i], env.Keys)
    ensures |r| == |xs|
    decreases t, 0
  {
    seq(|xs|, i requires 0 <= i < |xs| => Truth(xs[i], env))
  }

  function B2I(b: bool): Bit
  {
    if b then 1 else 0
  }

  /** A left `&`-fold of bits is 1 iff every bit is 1. */
  lemma {:induction false} FoldAnd(vals: seq<Bit>)
    requires |vals| > 0
    ensures Fold(AndBits, vals) == 1 <==> forall i :: 0 <= i < |vals| ==> vals[i] == 1
  {
    if |vals| > 1 {
      var init := vals[..|vals| - 1];
      FoldAnd(init);
      assert forall i :: 0 <= i < |init| ==> init[i] == vals[i];
    }
  }

  /** A left `|`-fold of bits is 1 iff some bit is 1. */
  lemma {:induction false} FoldOr(vals: seq<Bit>)
    requires |vals| > 0
    ensures Fold(OrBits, vals) == 1 <==> exists i :: 0 <= i < |vals| && vals[i] == 1
  {
    if |vals| > 1 {
      var init := vals[..|vals| - 1];
      FoldOr(init);
      assert forall i :: 0 <= i < |init| ==> init[i] == vals[i];
      if Fold(OrBits, init) == 1 {
        var i :| 0 <= i < |init| && init[i] == 1;
        assert vals[i] == 1;
      }
    }
  }

  /** A left `^`-fold of bits is the parity of the number of ones. */
  lemma {:induction false} FoldXor(vals: seq<Bit>)
    requires |vals| > 0
    ensures Fold(XorBits, vals) == CountTrue(seq(|vals|, i requires 0 <= i < |vals| => vals[i] == 1)) % 2
  {
    var bs := seq(|vals|, i requires 0 <= i < |vals| => vals[i] == 1);
    var init := vals[..|vals| - 1];
    var initBs := seq(|init|, i requires 0 <= i < |init| => init[i] == 1);
    assert bs[..|bs| - 1] == initBs;
    if |vals| > 1 {
      FoldXor(init);
    }
  }

  /** The bitwise source text computes the truth value of the formula. */
  lemma {:induction false} EvalMeansTruth(t: Token, env: map<string, Bit>)
    requires Evaluable(t, env.Keys)
    ensures Eval(t, env) == B2I(Truth(t, env))
    decreases t
  {
    match t
    case Variable(_) =>
    case Negation(x) => EvalMeansTruth(x, env);
    case Implication(l, r) => EvalMeansTruth(l, env); EvalMeansTruth(r, env);
    case Biconditional(l, r) => EvalMeansTruth(l, env); EvalMeansTruth(r, env);
    case _ =>
      var vals := OperandsMeanTruths(t, env);
      NaryMeansTruth(t, env, vals);
  }

  /** One n-ary node: once its operands' values are their truths, so is its own value. */
  lemma NaryMeansTruth(t: Token, env: map<string, Bit>, vals: seq<Bit>)
    requires t.IsNary() && Evaluable(t, env.Keys)
    requires vals == OperandValues(t, t.operands, env)
    requires forall i :: 0 <= i < |vals| ==> vals[i] == B2I(Truth(t.operands[i], env))
    ensures Eval(t, env) == B2I(Truth(t, env))
  {
    if t.Conjunction? {
      FoldAnd(vals);
    } else if t.Disjunction? {
      FoldOr(vals);
    } else {
      FoldXor(vals);
      assert seq(|vals|, i requires 0 <= i < |vals| => vals[i] == 1) == OperandTruths(t, t.operands, env);
    }
  }

  lemma {:induction false} OperandsMeanTruths(t: Token, env: map<string, Bit>) returns (vals: seq<Bit>)
    requires t.IsNary() && Evaluable(t, env.Keys)
    ensures vals == OperandValues(t, t.operands, env)
    ensures forall i :: 0 <= i < |vals| ==> vals[i] == B2I(Truth(t.operands[i], env))
    decreases t, 0
  {
    vals := OperandValues(t, t.operands, env);
    forall i | 0 <= i < |vals|
      ensures vals[i] == B2I(Truth(t.operands[i], env))
    {
      EvalMeansTruth(t.operands[i], env);
    }
  }

  /** What each generated operator computes on 0/1 values. */
  lemma EvalByNode(t: Token, env: map<string, Bit>)
    requires Evaluable(t, env.Keys) && !t.Variable?
    ensures t.Negation? ==> Eval(t, env) == 1 - Eval(t.negated, env)
    ensures t.Implication? ==> Eval(t, env) == Apply(OrBits, 1 - Eval(t.left, env), Eval(t.right, env))
    ensures t.Biconditional? ==> (Eval(t, env) == 1 <==> Eval(t.left, env) == Eval(t.right, env))
    ensures t.Conjunction? ==> (Eval(t, env) == 1 <==> forall i :: 0 <= i < |t.operands| ==> Eval(t.operands[i], env) == 1)
    ensures t.Disjunction? ==> (Eval(t, env) == 1 <==> exists i :: 0 <= i < |t.operands| && Eval(t.operands[i], env) == 1)
    ensures t.XDisjunction? ==>
      Eval(t, env) == CountTrue(seq(|t.operands|, i requires 0 <= i < |t.operands| => Eval(t.operands[i], env) == 1)) % 2
  {
    if t.IsNary() {
      var vals := OperandValues(t, t.operands, env);
      assert forall i :: 0 <= i < |vals| ==> vals[i] == Eval(t.operands[i], env);
      if t.Conjunction? {
        FoldAnd(vals);
      } else if t.Disjunction? {
        FoldOr(vals);
      } else {
        FoldXor(vals);
        assert seq(|vals|, i requires 0 <= i < |vals| => vals[i] == 1) ==
               seq(|t.operands|, i requires 0 <= i < |t.operands| => Eval(t.operands[i], env) == 1);
      }
    }
  }

  /** A name occurring in an operand occurs in the n-ary node. */
  lemma OperandOccurrence(t: Token, i: nat, n: string)
    requires t.IsNary() && i < |t.operands| && n in Occurrences(t.operands[i])
    ensures n in Occurrences(t)
  {
    var xs := t.operands;
    var parts := seq(|xs|, k requires 0 <= k < |xs| => Occurrences(xs[k]));
    assert n in parts[i];
    FlattenMember(parts, n);
  }

  /** A tree stays evaluable in any namespace that binds the names occurring in it. */
  lemma {:induction false} EvaluableWhereBound(t: Token, names: set<string>, bound: set<string>)
    requires Evaluable(t, names)
    requires forall n :: n in Occurrences(t) ==> n in bound
    ensures Evaluable(t, bound)
    decreases t
  {
    match t
    case Variable(_) =>
    case Negation(x) => EvaluableWhereBound(x, names, bound);
    case Implication(l, r) => EvaluableWhereBound(l, names, bound); EvaluableWhereBound(r, names, bound);
    case Biconditional(l, r) => EvaluableWhereBound(l, names, bound); EvaluableWhereBound(r, names, bound);
    case Conjunction(_) => OperandsEvaluableWhereBound(t, names, bound);
    case Disjunction(_) => OperandsEvaluableWhereBound(t, names, bound);
    case XDisjunction(_) => OperandsEvaluableWhereBound(t, names, bound);
  }

  lemma {:induction false} OperandsEvaluableWhereBound(t: Token, names: set<string>, bound: set<string>)
    requires t.IsNary() && Evaluable(t, names)
    requires forall n :: n in Occurrences(t) ==> n in bound
    ensures forall i :: 0 <= i < |t.operands| ==> Evaluable(t.operands[i], bound)
    decreases t, 0
  {
    forall i | 0 <= i < |t.operands|
      ensures Evaluable(t.operands[i], bound)
    {
      forall n | n in Occurrences(t.operands[i])
        ensures n in bound
      {
        OperandOccurrence(t, i, n);
      }
      EvaluableWhereBound(t.operands[i], names, bound);
    }
  }

  /** Two namespaces that agree on every name occurring in `t`. */
  predicate AgreeOn(t: Token, e1: map<string, Bit>, e2: map<string, Bit>)
  {
    forall n :: n in Occurrences(t) ==> n in e1 && n in e2 && e1[n] == e2[n]
  }

  /** The value of a tree depends only on the names occurring in it. */
  lemma {:induction false} EvalLocal(t: Token, e1: map<string, Bit>, e2: map<string, Bit>)
    requires Evaluable(t, e1.Keys) && Evaluable(t, e2.Keys) && AgreeOn(t, e1, e2)
    ensures Eval(t, e1) == Eval(t, e2)
    decreases t
  {
    match t
    case Variable(_) =>
    case Negation(x) => EvalLocal(x, e1, e2);
    case Implication(l, r) => EvalLocal(l, e1, e2); EvalLocal(r, e1, e2);
    case Biconditional(l, r) => EvalLocal(l, e1, e2); EvalLocal(r, e1, e2);
    case Conjunction(xs) => OperandsLocal(t, e1, e2);
    case Disjunction(xs) => OperandsLocal(t, e1, e2);
    case XDisjunction(xs) => OperandsLocal(t, e1, e2);
  }

  lemma {:induction false} OperandsLocal(t: Token, e1: map<string, Bit>, e2: map<string, Bit>)
    requires t.IsNary() && Evaluable(t, e1.Keys) && Evaluable(t, e2.Keys) && AgreeOn(t, e1, e2)
    ensures OperandValues(t, t.operands, e1) == OperandValues(t, t.operands, e2)
    decreases t, 0
  {
    forall i | 0 <= i < |t.operands|
      ensures Eval(t.operands[i], e1) == Eval(t.operands[i], e2)
    {
      forall n | n in Occurrences(t.operands[i])
        ensures n in e1 && n in e2 && e1[n] == e2[n]
      {
        OperandOccurrence(t, i, n);
      }
      EvalLocal(t.operands[i], e1, e2);
    }
  }

  /** Every name occurring in an evaluable tree is bound. */
  lemma {:induction false} EvaluableBindsOccurrences(t: Token, names: set<string>, n: string)
    requires Evaluable(t, names) && n in Occurrences(t)
    ensures n in names
    decreases t
  {
    match t
    case Variable(_) =>
    case Negation(x) => EvaluableBindsOccurrences(x, names, n);
    case Implication(l, r) =>
      if n in Occurrences(l) {
        EvaluableBindsOccurrences(l, names, n);
      } else {
        EvaluableBindsOccurrences(r, names, n);
      }
    case Biconditional(l, r) =>
      if n in Occurrences(l) {
        EvaluableBindsOccurrences(l, names, n);
      } else {
        EvaluableBindsOccurrences(r, names, n);
      }
    case Conjunction(xs) => OperandBindsOccurrences(t, names, n);
    case Disjunction(xs) => OperandBindsOccurrences(t, names, n);
    case XDisjunction(xs) => OperandBindsOccurrences(t, names, n);
  }

  lemma {:induction false} OperandBindsOccurrences(t: Token, names: set<string>, n: string)
    requires t.IsNary() && Evaluable(t, names) && n in Occurrences(t)
    ensures n in names
    decreases t, 0
  {
    var xs := t.operands;
    var parts := seq(|xs|, k requires 0 <= k < |xs| => Occurrences(xs[k]));
    FlattenMember(parts, n);
    var i :| 0 <= i < |parts| && n in parts[i];
    EvaluableBindsOccurrences(xs[i], names, n);
  }

  /** Every subterm of an evaluable tree is evaluable in the same namespace. */
  lemma {:induction false} SubtermEvaluable(s: Token, t: Token, names: set<string>)
    requires Subterm(s, t) && Evaluable(t, names)
    ensures Evaluable(s, names)
    decreases t
  {
    if s != t {
      match t
      case Variable(_) =>
      case Negation(x) => SubtermEvaluable(s, x, names);
      case Implication(l, r) =>
        if Subterm(s, l) { SubtermEvaluable(s, l, names); } else { SubtermEvaluable(s, r, names); }
      case Biconditional(l, r) =>
        if Subterm(s, l) { SubtermEvaluable(s, l, names); } else { SubtermEvaluable(s, r, names); }
      case Conjunction(xs) =>
        var i :| 0 <= i < |xs| && Subterm(s, xs[i]);
        SubtermEvaluable(s, xs[i], names);
      case Disjunction(xs) =>
        var i :| 0 <= i < |xs| && Subterm(s, xs[i]);
        SubtermEvaluable(s, xs[i], names);
      case XDisjunction(xs) =>
        var i :| 0 <= i < |xs| && Subterm(s, xs[i]);
        SubtermEvaluable(s, xs[i], names);
    }
  }

  /** A tree evaluable somewhere is evaluable over its own variables, and so are its sentences. */
  lemma OwnVariablesSuffice(t: Token, names: set<string>)
    requires Evaluable(t, names)
    ensures Evaluable(t, Elems(Variables(t)))
    ensures forall s :: s in Sentences(t) ==> Evaluable(s, Elems(Variables(t)))
  {
    EvaluableWhereBound(t, names, Elems(Variables(t)));
    forall s | s in Sentences(t)
      ensures Evaluable(s, Elems(Variables(t)))
    {
      SentencesAreCompoundSubterms(t, s);
      SubtermEvaluable(s, t, Elems(Variables(t)));
    }
  }

  /** Evaluability survives a larger namespace. */
  lemma EvaluableMono(t: Token, names: set<string>, more: set<string>)
    requires Evaluable(t, names) && names <= more
    ensures Evaluable(t, more)
  {
    forall n | n in Occurrences(t)
      ensures n in more
    {
      EvaluableBindsOccurrences(t, names, n);
    }
    EvaluableWhereBound(t, names, more);
  }
}
