/**
 * The truth-table objects: a `Proposition` wraps one compiled statement and
 * its table, an `Argument` wraps premise propositions and an optional
 * conclusion over the union of their variables, and both answer the
 * semantic queries (tautology, validity, equivalence) from their tables.
 */
module Objects {
  import opened Wrappers
  import opened Helpers
  import opened Fol
  import opened TruthTable

  /** Why a custom pair of true/false labels is refused. */
  datatype LabelError = LengthNotTwo | Identical

  /**
   * The label check shared by both constructors: no labels (the empty
   * text) are accepted, otherwise exactly two different characters.
   */
  function CheckLabels(labels: string): (r: Result<Option<string>, LabelError>)
    ensures r.Success? <==> |labels| == 0 || (|labels| == 2 && labels[0] != labels[1])
    ensures r.Success? ==> r.value == (if |labels| == 0 then None else Some(labels))
    ensures |labels| != 0 && |labels| != 2 ==> r == Failure(LengthNotTwo)
    ensures |labels| == 2 && labels[0] == labels[1] ==> r == Failure(Identical)
  {
    if |labels| == 0 then Success(None)
    else if |labels| != 2 then Failure(LengthNotTwo)
    else if labels[0] == labels[1] then Failure(Identical)
    else Success(Some(labels))
  }

  /**
   * What the compiler hands over for one statement: its tree, its distinct
   * variable names and its distinct sentences, all evaluable over those
   * names, with the statement itself among the columns the table will have.
   */
  predicate Compiled(root: Token, variables: seq<string>, sentences: seq<Token>)
  {
    NoDuplicates(variables) && NoDuplicates(sentences) &&
    Evaluable(root, Elems(variables)) &&
    (forall k :: 0 <= k < |sentences| ==> Evaluable(sentences[k], Elems(variables))) &&
    (root in sentences || root in VarKeys(variables))
  }

  /** The rows of a table: ascending, or descending when reversed. */
  function Ordered(n: nat, reverse: bool): (cases: seq<seq<Bit>>)
    ensures |cases| == Pow2(n) && forall r :: 0 <= r < |cases| ==> |cases[r]| == n
  {
    if reverse then Reverse(Cases(n)) else Cases(n)
  }

  /** `seq[i]` with Python's negative positions counted from the end. */
  function PyIndex(i: int, n: nat): int
  {
    if i < 0 then n + i else i
  }

  /** The column argument of `is_tautology`: none (or a falsy one), a key, or a sentence position. */
  datatype ColumnRef = Statement | Named(key: Token) | Indexed(index: int)

  /** Python's `all` over a column of bits. */
  predicate AllOnes(col: seq<Bit>)
  {
    forall r :: 0 <= r < |col| ==> col[r] != 0
  }

  class Proposition {
    const statement: string
    const root: Token
    const variables: seq<string>
    const atomicSentences: seq<Token>
    const labels: Option<string>
    const reverseValues: bool
    const cases: seq<seq<Bit>>
    const table: map<Token, seq<Bit>>

    /** The table has a column per variable and per sentence, each its key's values row by row. */
    predicate Valid()
    {
      Compiled(root, variables, atomicSentences) &&
      cases == Ordered(|variables|, reverseValues) &&
      table.Keys == VarKeys(variables) + Elems(atomicSentences) &&
      ColumnsEvaluate(table, variables, cases)
    }

    /**
     * Builds the table: one column per variable, then one per sentence,
     * over the rows in ascending order, or descending when `reverse` is set.
     */
    constructor (statement: string, root: Token, variables: seq<string>, atomicSentences: seq<Token>,
                 labels: Option<string>, reverse: bool)
      requires Compiled(root, variables, atomicSentences)
      ensures this.statement == statement && this.root == root && this.labels == labels
      ensures this.variables == variables && this.atomicSentences == atomicSentences
      ensures reverseValues == reverse
      ensures Valid()
    {
      this.statement := statement;
      this.root := root;
      this.variables := variables;
      this.atomicSentences := atomicSentences;
      this.labels := labels;
      this.reverseValues := reverse;
      var rows := Ordered(|variables|, reverse);
      this.cases := rows;
      var vt := FillVariableColumns(variables, rows);
      var t := FillSentenceColumns(vt, variables, rows, atomicSentences);
      FilledColumns(vt, t, variables, rows, atomicSentences);
      this.table := t;
    }

    /** The constructor behind the label check: bad labels are an error, not an object. */
    static method Create(statement: string, root: Token, variables: seq<string>, atomicSentences: seq<Token>,
                         labels: string, reverse: bool)
      returns (r: Result<Proposition, LabelError>)
      requires Compiled(root, variables, atomicSentences)
      ensures r.Failure? <==> CheckLabels(labels).Failure?
      ensures r.Failure? ==> r.error == CheckLabels(labels).error
      ensures r.Success? ==> fresh(r.value) && r.value.Valid() && r.value.root == root &&
                             r.value.variables == variables && r.value.reverseValues == reverse &&
                             r.value.labels == CheckLabels(labels).value
    {
      var checked := CheckLabels(labels);
      if checked.Failure? {
        return Failure(checked.error);
      }
      var p := new Proposition(statement, root, variables, atomicSentences, checked.value, reverse);
      return Success(p);
    }

    /** The statement's own column: its truth value in every row. */
    function Values(): (v: seq<Bit>)
      requires Valid()
      ensures |v| == |cases|
      ensures forall r :: 0 <= r < |cases| ==> v[r] == B2I(Truth(root, Env(variables, cases[r])))
    {
      EvalColumnMeansTruth(root, variables, cases);
      table[root]
    }

    /** A column of the table is all ones exactly when its key holds under every assignment. */
    lemma ColumnHolds(key: Token)
      requires Valid() && key in table
      ensures AllOnes(table[key]) <==> HoldsEverywhere(key, variables)
    {
      CasesCoverAll(|variables|);
      ColumnAllOnes(key, variables, cases);
    }

    /**
     * `is_tautology`: whether a column is all true. With no column (or
     * position 0) it is the statement's own column, and the answer is
     * whether the statement holds under every assignment. A missing key or
     * an out-of-range position has no answer.
     */
    function IsTautology(column: ColumnRef): (r: Option<bool>)
      requires Valid()
      ensures column == Statement || column == Indexed(0) ==> r == Some(HoldsEverywhere(root, variables))
      ensures column.Named? ==> (r.Some? <==> column.key in table)
      ensures column.Named? && column.key in table ==> r == Some(HoldsEverywhere(column.key, variables))
      ensures column.Indexed? && column.index != 0 ==>
                (r.Some? <==> -|atomicSentences| <= column.index < |atomicSentences|)
      ensures column.Indexed? && column.index != 0 && r.Some? ==>
                r == Some(HoldsEverywhere(atomicSentences[PyIndex(column.index, |atomicSentences|)], variables))
    {
      match column
      case Statement => ColumnHolds(root); Some(AllOnes(Values()))
      case Named(key) =>
        if key in table then ColumnHolds(key); Some(AllOnes(table[key]))
        else None
      case Indexed(i) =>
        if i == 0 then ColumnHolds(root); Some(AllOnes(Values()))
        else if -|atomicSentences| <= i < |atomicSentences| then
          var key := atomicSentences[PyIndex(i, |atomicSentences|)];
          ColumnHolds(key);
          Some(AllOnes(table[key]))
        else None
    }
  }

  /**
   * The argument's variables: a copy of the first list, then every name
   * of every list, in order, appended when not yet present.
   */
  method CollectVariables(first: seq<string>, lists: seq<seq<string>>) returns (variables: seq<string>)
    requires NoDuplicates(first)
    ensures variables == Unique(first + Flatten(lists))
  {
    variables := first;
    UniqueIdentity(first);
    assert first + Flatten(lists[..0]) == first;
    var i := 0;
    while i < |lists|
      invariant i <= |lists|
      invariant variables == Unique(first + Flatten(lists[..i]))
    {
      var j := 0;
      assert first + Flatten(lists[..i]) + lists[i][..0] == first + Flatten(lists[..i]);
      while j < |lists[i]|
        invariant j <= |lists[i]|
        invariant variables == Unique(first + Flatten(lists[..i]) + lists[i][..j])
      {
        var v := lists[i][j];
        ghost var seen := first + Flatten(lists[..i]) + lists[i][..j];
        UniqueSnoc(seen, v);
        assert seen + [v] == first + Flatten(lists[..i]) + lists[i][..j + 1];
        if v !in variables {
          variables := variables + [v];
        }
        j := j + 1;
      }
      assert lists[..i + 1] == lists[..i] + [lists[i]];
      FlattenSnoc(lists[..i], lists[i]);
      assert lists[i][..j] == lists[i];
      assert first + Flatten(lists[..i + 1]) == first + Flatten(lists[..i]) + lists[i];
      i := i + 1;
    }
    assert lists[..i] == lists;
  }

  /** Every premise holds and the conclusion fails under no assignment. */
  ghost predicate Entails(premises: seq<Token>, conclusion: Token, vars: seq<string>)
    requires forall i :: 0 <= i < |premises| ==> Evaluable(premises[i], Elems(vars))
    requires Evaluable(conclusion, Elems(vars))
  {
    forall row: seq<Bit> | |row| == |vars| ::
      (forall i :: 0 <= i < |premises| ==> Truth(premises[i], Env(vars, row))) ==> Truth(conclusion, Env(vars, row))
  }

  /** A non-empty sequence has a one-element set of values exactly when all its values are equal. */
  lemma {:induction false} SingleValue<T>(s: seq<T>)
    requires |s| > 0
    ensures |Elems(s)| == 1 <==> forall i :: 0 <= i < |s| ==> s[i] == s[0]
  {
    if forall i :: 0 <= i < |s| ==> s[i] == s[0] {
      assert Elems(s) == {s[0]};
    } else {
      var i :| 0 <= i < |s| && s[i] != s[0];
      assert {s[0], s[i]} <= Elems(s);
      assert |{s[0], s[i]}| == 2;
      assert |Elems(s)| >= 2 by {
        SubsetCardinality({s[0], s[i]}, Elems(s));
      }
    }
  }

  lemma SubsetCardinality<T>(a: set<T>, b: set<T>)
    requires a <= b
    ensures |a| <= |b|
  {
    assert b == a + (b - a);
  }

  /** Starting from a copy of the first list changes nothing: its names come first anyway. */
  lemma FirstListRepeated(lists: seq<seq<string>>)
    requires |lists| > 0
    ensures Unique(lists[0] + Flatten(lists)) == Unique(Flatten(lists))
  {
    var rest := Flatten(lists[1..]);
    assert Flatten(lists) == lists[0] + rest;
    UniqueRepeatedPrefix(lists[0], rest);
  }

  /** Every proposition's statement is evaluable over a list holding all their variables. */
  lemma PropositionsEvaluable(props: seq<Proposition>, lists: seq<seq<string>>, vars: seq<string>)
    requires forall i :: 0 <= i < |props| ==> props[i].Valid()
    requires |lists| == |props| && forall i :: 0 <= i < |props| ==> lists[i] == props[i].variables
    requires vars == Unique(Flatten(lists))
    ensures forall i :: 0 <= i < |props| ==> Evaluable(props[i].root, Elems(vars))
  {
    forall i | 0 <= i < |props|
      ensures Evaluable(props[i].root, Elems(vars))
    {
      forall x | x in props[i].variables
        ensures x in vars
      {
        assert x in lists[i];
        FlattenMember(lists, x);
      }
      EvaluableMono(props[i].root, Elems(props[i].variables), Elems(vars));
    }
  }

  /** Every proposition's compiled statement, in order. */
  function Roots(props: seq<Proposition>): (r: seq<Token>)
    ensures |r| == |props| && forall i :: 0 <= i < |props| ==> r[i] == props[i].root
  {
    seq(|props|, i requires 0 <= i < |props| => props[i].root)
  }

  /** Every proposition's variable list, in order. */
  function VariableListsOf(props: seq<Proposition>): (r: seq<seq<string>>)
    ensures |r| == |props| && forall i :: 0 <= i < |props| ==> r[i] == props[i].variables
  {
    seq(|props|, i requires 0 <= i < |props| => props[i].variables)
  }

  /**
   * The table of an argument over its propositions (premises, then the
   * conclusion): the variables collected from the first proposition on,
   * their columns, and one column per proposition over the ascending rows.
   */
  method FillArgumentTable(props: seq<Proposition>) returns (vars: seq<string>, table: map<Token, seq<Bit>>)
    requires |props| > 0 && forall i :: 0 <= i < |props| ==> props[i].Valid()
    ensures vars == Unique(Flatten(VariableListsOf(props)))
    ensures table.Keys == VarKeys(vars) + Elems(Roots(props))
    ensures ColumnsStartWith(table, vars, Cases(|vars|))
  {
    var lists := VariableListsOf(props);
    vars := CollectVariables(props[0].variables, lists);
    FirstListRepeated(lists);
    PropositionsEvaluable(props, lists, vars);
    var rows := Cases(|vars|);
    var vt := FillVariableColumns(vars, rows);
    var sentences := Roots(props);
    table := FillSentenceColumns(vt, vars, rows, sentences);
    FilledColumns(vt, table, vars, rows, sentences);
  }

  /** Every premise column is true in row `row`. */
  predicate PremisesTrueAt(table: map<Token, seq<Bit>>, premiseRoots: seq<Token>, row: nat)
    requires forall i :: 0 <= i < |premiseRoots| ==> premiseRoots[i] in table && row < |table[premiseRoots[i]]|
  {
    forall i :: 0 <= i < |premiseRoots| ==> table[premiseRoots[i]][row] != 0
  }

  /**
   * The loops of `is_valid`: row by row, scans the sentences, noting
   * whether some premise is false and what the conclusion is; a row with
   * every premise true and the conclusion false makes the argument invalid.
   */
  method ScanRows(table: map<Token, seq<Bit>>, sentences: seq<Token>, premiseRoots: seq<Token>, c: Token, rows: nat)
    returns (valid: bool)
    requires forall m :: 0 <= m < |sentences| ==> sentences[m] in table && rows <= |table[sentences[m]]|
    requires forall i :: 0 <= i < |premiseRoots| ==> premiseRoots[i] in sentences
    requires |sentences| > 0 && sentences[|sentences| - 1] == c
    ensures valid <==> forall row :: 0 <= row < rows ==> (PremisesTrueAt(table, premiseRoots, row) ==> table[c][row] != 0)
  {
    var concl: Bit := 0;
    var row := 0;
    while row < rows
      invariant row <= rows
      invariant forall r :: 0 <= r < row ==> (PremisesTrueAt(table, premiseRoots, r) ==> table[c][r] != 0)
    {
      var consistent := true;
      ghost var seen := false;
      var k := 0;
      while k < |sentences|
        invariant k <= |sentences|
        invariant consistent <==> forall m :: 0 <= m < k && sentences[m] in premiseRoots ==> table[sentences[m]][row] != 0
        invariant seen <==> exists m :: 0 <= m < k && sentences[m] == c
        invariant seen ==> concl == table[c][row]
      {
        var s := sentences[k];
        if s in premiseRoots {
          if table[s][row] == 0 {
            consistent := false;
          }
        }
        if s == c {
          concl := table[s][row];
          seen := true;
        }
        k := k + 1;
      }
      assert seen;
      assert consistent <==> PremisesTrueAt(table, premiseRoots, row) by {
        if consistent {
          forall i | 0 <= i < |premiseRoots|
            ensures table[premiseRoots[i]][row] != 0
          {
            var m :| 0 <= m < |sentences| && sentences[m] == premiseRoots[i];
          }
        }
      }
      if consistent && concl == 0 {
        return false;
      }
      row := row + 1;
    }
    return true;
  }

  /**
   * Over a table whose columns start with their keys' values on the
   * ascending rows, "no row has every premise true and the conclusion
   * false" is entailment.
   */
  lemma TableEntails(table: map<Token, seq<Bit>>, vars: seq<string>, ps: seq<Token>, c: Token)
    requires ColumnsStartWith(table, vars, Cases(|vars|))
    requires (forall i :: 0 <= i < |ps| ==> ps[i] in table) && c in table
    ensures forall i :: 0 <= i < |ps| ==> Evaluable(ps[i], Elems(vars))
    ensures Evaluable(c, Elems(vars))
    ensures (forall row :: 0 <= row < Pow2(|vars|) ==> (PremisesTrueAt(table, ps, row) ==> table[c][row] != 0)) <==>
            Entails(ps, c, vars)
  {
    var rows := Cases(|vars|);
    CasesCoverAll(|vars|);
    if forall row :: 0 <= row < |rows| ==> (PremisesTrueAt(table, ps, row) ==> table[c][row] != 0) {
      NoCounterexampleEntails(table, vars, rows, ps, c);
    }
    if Entails(ps, c, vars) {
      EntailsNoCounterexample(table, vars, rows, ps, c);
    }
  }

  /** An entry of a column that starts with its key's values is that key's truth value on the row. */
  lemma CellIsTruth(table: map<Token, seq<Bit>>, vars: seq<string>, rows: seq<seq<Bit>>, k: Token, row: nat)
    requires ColumnsStartWith(table, vars, rows) && k in table && row < |rows|
    ensures |rows[row]| == |vars| && Evaluable(k, Elems(vars)) &&
            table[k][row] == B2I(Truth(k, Env(vars, rows[row])))
  {
    assert table[k][..|rows|][row] == table[k][row];
    EvalMeansTruth(k, Env(vars, rows[row]));
  }

  lemma NoCounterexampleEntails(table: map<Token, seq<Bit>>, vars: seq<string>, rows: seq<seq<Bit>>, ps: seq<Token>, c: Token)
    requires ColumnsStartWith(table, vars, rows) && CoversAll(rows, |vars|)
    requires (forall i :: 0 <= i < |ps| ==> ps[i] in table) && c in table
    requires forall row :: 0 <= row < |rows| ==> (PremisesTrueAt(table, ps, row) ==> table[c][row] != 0)
    ensures Entails(ps, c, vars)
  {
    forall a: seq<Bit> | |a| == |vars| && (forall i :: 0 <= i < |ps| ==> Truth(ps[i], Env(vars, a)))
      ensures Truth(c, Env(vars, a))
    {
      var row :| 0 <= row < |rows| && rows[row] == a;
      forall i | 0 <= i < |ps|
        ensures table[ps[i]][row] != 0
      {
        CellIsTruth(table, vars, rows, ps[i], row);
      }
      assert PremisesTrueAt(table, ps, row);
      CellIsTruth(table, vars, rows, c, row);
    }
  }

  lemma EntailsNoCounterexample(table: map<Token, seq<Bit>>, vars: seq<string>, rows: seq<seq<Bit>>, ps: seq<Token>, c: Token)
    requires ColumnsStartWith(table, vars, rows)
    requires (forall i :: 0 <= i < |ps| ==> ps[i] in table) && c in table
    requires Entails(ps, c, vars)
    ensures forall row :: 0 <= row < |rows| ==> (PremisesTrueAt(table, ps, row) ==> table[c][row] != 0)
  {
    forall row | 0 <= row < |rows| && PremisesTrueAt(table, ps, row)
      ensures table[c][row] != 0
    {
      var a := rows[row];
      forall i | 0 <= i < |ps|
        ensures Truth(ps[i], Env(vars, a))
      {
        CellIsTruth(table, vars, rows, ps[i], row);
      }
      CellIsTruth(table, vars, rows, c, row);
    }
  }

  /** One row of a table, read across the given headers. */
  function RowOf(table: map<Token, seq<Bit>>, headers: seq<Token>, row: nat): (values: seq<Bit>)
    requires forall i :: 0 <= i < |headers| ==> headers[i] in table && row < |table[headers[i]]|
    ensures |values| == |headers| && forall i :: 0 <= i < |headers| ==> values[i] == table[headers[i]][row]
  {
    seq(|headers|, i requires 0 <= i < |headers| => table[headers[i]][row])
  }

  /**
   * `X_COUNTEREXAMPLE` on one row of values: the conclusion's value, and
   * each premise's value, found at the first header naming it; the row
   * passes unless every premise is true and the conclusion false.
   */
  function CounterexampleCheck(values: seq<Bit>, headers: seq<Token>, premiseRoots: seq<Token>, c: Token): bool
    requires |values| == |headers| && c in headers
    requires forall i :: 0 <= i < |premiseRoots| ==> premiseRoots[i] in headers
  {
    var conclusionValue := values[FirstIndex(headers, c)];
    var premiseValues := seq(|premiseRoots|, i requires 0 <= i < |premiseRoots| => values[FirstIndex(headers, premiseRoots[i])]);
    !AllOnes(premiseValues) || conclusionValue != 0
  }

  /** On a row read from the table, the counterexample check is "premises true implies conclusion true". */
  lemma CounterexampleOnRows(table: map<Token, seq<Bit>>, headers: seq<Token>, premiseRoots: seq<Token>, c: Token,
                             rows: nat, values: seq<Bit>)
    requires forall i :: 0 <= i < |headers| ==> headers[i] in table && rows <= |table[headers[i]]|
    requires |values| == |headers| && c in headers
    requires forall i :: 0 <= i < |premiseRoots| ==> premiseRoots[i] in headers
    ensures forall row :: 0 <= row < rows && values == RowOf(table, headers, row) ==>
              (CounterexampleCheck(values, headers, premiseRoots, c) <==> (PremisesTrueAt(table, premiseRoots, row) ==> table[c][row] != 0))
  {
    forall row | 0 <= row < rows && values == RowOf(table, headers, row)
      ensures CounterexampleCheck(values, headers, premiseRoots, c) <==> (PremisesTrueAt(table, premiseRoots, row) ==> table[c][row] != 0)
    {
      var premiseValues := seq(|premiseRoots|, i requires 0 <= i < |premiseRoots| => values[FirstIndex(headers, premiseRoots[i])]);
      assert forall i :: 0 <= i < |premiseRoots| ==> premiseValues[i] == table[premiseRoots[i]][row];
    }
  }

  /** All sentence columns agree with the first one in row `row`. */
  predicate AgreeAt(table: map<Token, seq<Bit>>, sentences: seq<Token>, row: nat)
    requires |sentences| > 0
    requires forall i :: 0 <= i < |sentences| ==> sentences[i] in table && row < |table[sentences[i]]|
  {
    forall i :: 0 <= i < |sentences| ==> table[sentences[i]][row] == table[sentences[0]][row]
  }

  /**
   * `CHECK_EQUIVALENT` on one row of values: the sentences' values, found
   * at the first header naming each, form a one-element set.
   */
  function EqualityCheck(values: seq<Bit>, headers: seq<Token>, sentences: seq<Token>): bool
    requires |values| == |headers|
    requires forall i :: 0 <= i < |sentences| ==> sentences[i] in headers
  {
    var sentenceValues := seq(|sentences|, i requires 0 <= i < |sentences| => values[FirstIndex(headers, sentences[i])]);
    |Elems(sentenceValues)| == 1
  }

  /** On a row read from the table, the equality check is "all sentence columns agree". */
  lemma EqualityOnRows(table: map<Token, seq<Bit>>, headers: seq<Token>, sentences: seq<Token>, rows: nat, values: seq<Bit>)
    requires forall i :: 0 <= i < |headers| ==> headers[i] in table && rows <= |table[headers[i]]|
    requires |values| == |headers| && |sentences| > 0
    requires forall i :: 0 <= i < |sentences| ==> sentences[i] in headers
    ensures forall row :: 0 <= row < rows && values == RowOf(table, headers, row) ==>
              (EqualityCheck(values, headers, sentences) <==> AgreeAt(table, sentences, row))
  {
    forall row | 0 <= row < rows && values == RowOf(table, headers, row)
      ensures EqualityCheck(values, headers, sentences) <==> AgreeAt(table, sentences, row)
    {
      var sentenceValues := seq(|sentences|, i requires 0 <= i < |sentences| => values[FirstIndex(headers, sentences[i])]);
      assert forall i :: 0 <= i < |sentences| ==> sentenceValues[i] == table[sentences[i]][row];
      SingleValue(sentenceValues);
    }
  }

  /** The biconditional of two columns' sentences is a well-built statement of its own. */
  lemma BiconditionalCompiled(a: Token, b: Token, vars: seq<string>)
    requires Evaluable(a, Elems(vars)) && Evaluable(b, Elems(vars))
    ensures Compiled(Biconditional(a, b), Variables(Biconditional(a, b)), Unique(Sentences(Biconditional(a, b))))
  {
    var bic := Biconditional(a, b);
    var ss := Sentences(bic);
    OwnVariablesSuffice(bic, Elems(vars));
    assert ss[|ss| - 1] == bic;
    forall k | 0 <= k < |Unique(ss)|
      ensures Evaluable(Unique(ss)[k], Elems(Variables(bic)))
    {
      assert Unique(ss)[k] in ss;
    }
  }

  /**
   * One step of `all_equivalent`: the biconditional of two sentences becomes
   * a proposition of its own, which is asked whether it is a tautology.
   */
  method TestPair(a: Token, b: Token, vars: seq<string>, ghost rows: seq<seq<Bit>>, labels: Option<string>) returns (agree: bool)
    requires NoDuplicates(vars) && Evaluable(a, Elems(vars)) && Evaluable(b, Elems(vars))
    requires RowsFit(rows, vars) && CoversAll(rows, |vars|)
    ensures agree <==> forall r :: 0 <= r < |rows| ==> EvalColumn(a, vars, rows)[r] == EvalColumn(b, vars, rows)[r]
  {
    var bic := Biconditional(a, b);
    BiconditionalCompiled(a, b, vars);
    var test := new Proposition(Source(a) + IffOp + Source(b), bic, Variables(bic), Unique(Sentences(bic)), labels, false);
    var verdict := test.IsTautology(Statement);
    BiconditionalHoldsIffColumnsAgree(a, b, vars, rows);
    agree := verdict.value;
  }

  /**
   * The loop of `all_equivalent`: each statement after the first is tested
   * against the first, and the answer is false as soon as one test fails.
   */
  method TestEquivalences(table: map<Token, seq<Bit>>, vars: seq<string>, ghost rows: seq<seq<Bit>>, statements: seq<Token>, labels: Option<string>)
    returns (equivalent: bool)
    requires NoDuplicates(vars) && ColumnsStartWith(table, vars, rows) && CoversAll(rows, |vars|)
    requires |statements| > 0 && forall i :: 0 <= i < |statements| ==> statements[i] in table
    ensures equivalent <==> forall row :: 0 <= row < |rows| ==> AgreeAt(table, statements, row)
  {
    var a := statements[0];
    var i := 1;
    while i < |statements|
      invariant 1 <= i <= |statements|
      invariant forall j, row :: 1 <= j < i && 0 <= row < |rows| ==> table[statements[j]][row] == table[a][row]
    {
      var b := statements[i];
      var agree := TestPair(a, b, vars, rows, labels);
      ColumnsAgree(table, vars, rows, a, b);
      if !agree {
        ghost var row :| 0 <= row < |rows| && table[b][row] != table[a][row];
        assert !AgreeAt(table, statements, row);
        return false;
      }
      i := i + 1;
    }
    AgreeEverywhere(table, statements, |rows|);
    return true;
  }

  /** Two sentences' columns agree on the rows exactly when their values there do. */
  lemma ColumnsAgree(table: map<Token, seq<Bit>>, vars: seq<string>, rows: seq<seq<Bit>>, a: Token, b: Token)
    requires ColumnsStartWith(table, vars, rows) && a in table && b in table
    ensures (forall r :: 0 <= r < |rows| ==> EvalColumn(a, vars, rows)[r] == EvalColumn(b, vars, rows)[r]) <==>
            (forall r :: 0 <= r < |rows| ==> table[b][r] == table[a][r])
  {
    StartAgrees(table, vars, rows, a);
    StartAgrees(table, vars, rows, b);
  }

  /** Columns that all match the first one on every row make every row agree. */
  lemma AgreeEverywhere(table: map<Token, seq<Bit>>, statements: seq<Token>, n: nat)
    requires |statements| > 0 && forall i :: 0 <= i < |statements| ==> statements[i] in table && n <= |table[statements[i]]|
    requires forall j, row :: 1 <= j < |statements| && 0 <= row < n ==> table[statements[j]][row] == table[statements[0]][row]
    ensures forall row :: 0 <= row < n ==> AgreeAt(table, statements, row)
  {
  }

  /** Where a column starts with a sentence's values, its entries are those values. */
  lemma StartAgrees(table: map<Token, seq<Bit>>, vars: seq<string>, rows: seq<seq<Bit>>, k: Token)
    requires ColumnsStartWith(table, vars, rows) && k in table
    ensures forall r :: 0 <= r < |rows| ==> table[k][r] == EvalColumn(k, vars, rows)[r]
  {
    forall r | 0 <= r < |rows|
      ensures table[k][r] == EvalColumn(k, vars, rows)[r]
    {
      assert table[k][..|rows|][r] == table[k][r];
    }
  }

  class Argument {
    const premises: seq<Proposition>
    const conclusion: Option<Proposition>
    const labels: Option<string>
    const reverseValues: bool
    const variables: seq<string>
    const cases: seq<seq<Bit>>
    const table: map<Token, seq<Bit>>

    /** `all_premises`: the premises' compiled statements, in order. */
    function AllPremises(): (r: seq<Token>)
      ensures |r| == |premises| && forall i :: 0 <= i < |premises| ==> r[i] == premises[i].root
    {
      seq(|premises|, i requires 0 <= i < |premises| => premises[i].root)
    }

    /** `all_propositions`: the premises, then the conclusion when there is one. */
    function AllPropositions(): (r: seq<Proposition>)
      ensures |r| == |premises| + (if conclusion.Some? then 1 else 0)
      ensures r[..|premises|] == premises
      ensures conclusion.Some? ==> r[|r| - 1] == conclusion.value
    {
      premises + (if conclusion.Some? then [conclusion.value] else [])
    }

    /** Every proposition's variable list, premises first. */
    function VariableLists(): (r: seq<seq<string>>)
      ensures |r| == |AllPropositions()|
    {
      VariableListsOf(AllPropositions())
    }

    /**
     * `all_sentences`: optionally the variables, then the premises, then
     * optionally the conclusion.
     */
    function AllSentences(withVariables: bool, withConclusion: bool): (r: seq<Token>)
      ensures forall k :: k in r <==>
                (withVariables && k in VarKeys(variables)) || k in AllPremises() ||
                (withConclusion && conclusion.Some? && k == conclusion.value.root)
      ensures |r| == (if withVariables then |variables| else 0) + |premises| +
                     (if withConclusion && conclusion.Some? then 1 else 0)
      ensures withVariables ==> forall j :: 0 <= j < |variables| ==> r[j] == Variable(variables[j])
      ensures withVariables ==> forall i :: 0 <= i < |premises| ==> r[|variables| + i] == premises[i].root
      ensures !withVariables ==> forall i :: 0 <= i < |premises| ==> r[i] == premises[i].root
      ensures withConclusion && conclusion.Some? ==> r[|r| - 1] == conclusion.value.root
      ensures !withVariables && withConclusion ==> r == Roots(AllPropositions())
    {
      var front := if withVariables then VarTokens(variables) else [];
      front + AllPremises() + (if withConclusion && conclusion.Some? then [conclusion.value.root] else [])
    }

    /**
     * The variables are every proposition's names in first-seen order; the table has a column
     * per variable and per sentence, filled over the rows in ascending
     * order whatever the display order of `cases`.
     */
    predicate Valid()
    {
      |premises| > 0 &&
      variables == Unique(Flatten(VariableLists())) &&
      cases == Ordered(|variables|, reverseValues) &&
      table.Keys == VarKeys(variables) + Elems(Roots(AllPropositions())) &&
      (forall i :: 0 <= i < |premises| ==> premises[i].root in table) &&
      (conclusion.Some? ==> conclusion.value.root in table) &&
      ColumnsStartWith(table, variables, Cases(|variables|))
    }
  
    /**
     * Collects the variables, builds the rows (reversed for display only)
     * and fills the columns of the variables, the premises and the
     * conclusion over the ascending rows.
     */
    constructor (premises: seq<Proposition>, conclusion: Option<Proposition>, labels: Option<string>, reverse: bool)
      requires |premises| > 0 && forall i :: 0 <= i < |premises| ==> premises[i].Valid()
      requires conclusion.Some? ==> conclusion.value.Valid()
      ensures this.premises == premises && this.conclusion == conclusion && this.labels == labels
      ensures reverseValues == reverse
      ensures Valid()
    {
      var props := premises + (if conclusion.Some? then [conclusion.value] else []);
      var vars, t := FillArgumentTable(props);
      this.premises := premises;
      this.conclusion := conclusion;
      this.labels := labels;
      this.reverseValues := reverse;
      this.variables := vars;
      this.cases := Ordered(|vars|, reverse);
      this.table := t;
      new;
      assert AllPropositions() == props;

    }

    /** The constructor behind the label check: bad labels are an error, not an object. */
    static method Create(premises: seq<Proposition>, conclusion: Option<Proposition>, labels: string, reverse: bool)
      returns (r: Result<Argument, LabelError>)
      requires |premises| > 0 && forall i :: 0 <= i < |premises| ==> premises[i].Valid()
      requires conclusion.Some? ==> conclusion.value.Valid()
      ensures r.Failure? <==> CheckLabels(labels).Failure?
      ensures r.Failure? ==> r.error == CheckLabels(labels).error
      ensures r.Success? ==> fresh(r.value) && r.value.Valid() && r.value.premises == premises &&
                             r.value.conclusion == conclusion && r.value.reverseValues == reverse &&
                             r.value.labels == CheckLabels(labels).value
    {
      var checked := CheckLabels(labels);
      if checked.Failure? {
        return Failure(checked.error);
      }
      var a := new Argument(premises, conclusion, checked.value, reverse);
      return Success(a);
    }
  
    /** `truth_table[key][row]`. */
    function Cell(k: Token, row: nat): Bit
      requires Valid() && k in table && row < |cases|
    {
      table[k][row]
    }

    /** Row `row` of column `k` is `k`'s value under the row's assignment, in ascending order. */
    lemma ColumnIsEval(k: Token)
      requires Valid() && k in table
      ensures Evaluable(k, Elems(variables))
      ensures forall row :: 0 <= row < |cases| ==> Cell(k, row) == EvalColumn(k, variables, Cases(|variables|))[row]
      ensures forall row :: 0 <= row < |cases| ==> Cell(k, row) == B2I(Truth(k, Env(variables, Cases(|variables|)[row])))
    {
      var rows := Cases(|variables|);
      forall row | 0 <= row < |cases|
        ensures Cell(k, row) == EvalColumn(k, variables, rows)[row]
      {
        assert table[k][..|rows|][row] == table[k][row];
      }
      EvalColumnMeansTruth(k, variables, rows);
    }

    /** Every premise column is true in row `row`. */
    predicate PremisesHold(row: nat)
      requires Valid() && row < |cases|
    {
      PremisesTrueAt(table, AllPremises(), row)
    }

    /** The conclusion column is true in row `row`. */
    predicate ConclusionHolds(row: nat)
      requires Valid() && conclusion.Some? && row < |cases|
    {
      Cell(conclusion.value.root, row) != 0
    }

    /** `is_valid`, over this argument's table, its sentences and its premises. */
    method IsValid() returns (valid: bool)
      requires Valid() && conclusion.Some?
      ensures valid <==> forall row :: 0 <= row < |cases| ==> (PremisesHold(row) ==> ConclusionHolds(row))
    {
      var sentences := AllSentences(true, true);
      var premiseRoots := AllPremises();
      SentencesHaveColumns(sentences);
      assert forall i :: 0 <= i < |premiseRoots| ==> premiseRoots[i] == sentences[|variables| + i];
      valid := ScanRows(table, sentences, premiseRoots, conclusion.value.root, |cases|);
      assert forall row :: 0 <= row < |cases| ==>
        (PremisesHold(row) <==> PremisesTrueAt(table, premiseRoots, row)) &&
        (ConclusionHolds(row) <==> table[conclusion.value.root][row] != 0);
    }

    /** Every sentence the scan visits has a column with an entry per row. */
    lemma SentencesHaveColumns(sentences: seq<Token>)
      requires Valid() && sentences == AllSentences(true, true)
      ensures forall m :: 0 <= m < |sentences| ==> sentences[m] in table && |cases| <= |table[sentences[m]]|
    {
      forall m | 0 <= m < |sentences|
        ensures sentences[m] in table
      {
        var k := sentences[m];
        assert k in sentences;
        if k !in VarKeys(variables) && conclusion.Some? && k != conclusion.value.root {
          var i :| 0 <= i < |premises| && AllPremises()[i] == k;
        }
      }
    }

    /**
     * Validity read off the table is entailment: every assignment that
     * makes all premises true makes the conclusion true.
     */
    lemma ValidityMeansEntailment()
      requires Valid() && conclusion.Some?
      ensures forall i :: 0 <= i < |premises| ==> Evaluable(AllPremises()[i], Elems(variables))
      ensures Evaluable(conclusion.value.root, Elems(variables))
      ensures (forall row :: 0 <= row < |cases| ==> (PremisesHold(row) ==> ConclusionHolds(row))) <==>
              Entails(AllPremises(), conclusion.value.root, variables)
    {
      TableEntails(table, variables, AllPremises(), conclusion.value.root);
      assert |cases| == Pow2(|variables|);
      assert forall row :: 0 <= row < |cases| ==>
        (PremisesHold(row) <==> PremisesTrueAt(table, AllPremises(), row)) &&
        (ConclusionHolds(row) <==> table[conclusion.value.root][row] != 0);
    }

    /** The table's keys, in insertion order: the variables, then the sentences. */
    function Headers(): (h: seq<Token>)
      requires Valid()
      ensures NoDuplicates(h) && forall k :: k in h <==> k in table
    {
      Unique(VarTokens(variables) + Roots(AllPropositions()))
    }

    /** Row `row` of the table, read across the headers. */
    function RowValues(row: nat): (values: seq<Bit>)
      requires Valid() && row < |cases|
      ensures |values| == |Headers()| && forall i :: 0 <= i < |values| ==> values[i] == Cell(Headers()[i], row)
    {
      RowOf(table, Headers(), row)
    }

    /**
     * `X_COUNTEREXAMPLE`: a row passes unless every premise is true in it
     * and the conclusion false.
     */
    function XCounterexample(values: seq<Bit>): (r: bool)
      requires Valid() && conclusion.Some? && |values| == |Headers()|
      ensures forall row :: 0 <= row < |cases| && values == RowValues(row) ==>
                (r <==> (PremisesHold(row) ==> ConclusionHolds(row)))
    {
      CounterexampleOnRows(table, Headers(), AllPremises(), conclusion.value.root, |cases|, values);
      CounterexampleCheck(values, Headers(), AllPremises(), conclusion.value.root)
    }

    /** The premises and the conclusion all have the same value in row `row`. */
    predicate SentencesAgree(row: nat)
      requires Valid() && row < |cases|
    {
      AgreeAt(table, AllSentences(false, true), row)
    }

    /** `CHECK_EQUIVALENT`: a row passes when every premise and the conclusion have one value in it. */
    function CheckEquivalent(values: seq<Bit>): (r: bool)
      requires Valid() && |values| == |Headers()|
      ensures forall row :: 0 <= row < |cases| && values == RowValues(row) ==> (r <==> SentencesAgree(row))
    {
      EqualityOnRows(table, Headers(), AllSentences(false, true), |cases|, values);
      EqualityCheck(values, Headers(), AllSentences(false, true))
    }

    /**
     * `all_equivalent`: every later statement is equivalent to the first,
     * that is, the premises and the conclusion agree in every row.
     */
    method AllEquivalent() returns (equivalent: bool)
      requires Valid()
      ensures equivalent <==> forall row :: 0 <= row < |cases| ==> SentencesAgree(row)
    {
      var statements := AllSentences(false, true);
      assert forall i :: 0 <= i < |statements| ==> statements[i] in table by {
        assert statements == Roots(AllPropositions());
      }
      ghost var rows := Cases(|variables|);
      assert CoversAll(rows, |variables|) && |rows| == |cases| by {
        CasesCoverAll(|variables|);
      }
      equivalent := TestEquivalences(table, variables, rows, statements, labels);
      assert forall row :: 0 <= row < |cases| ==> (SentencesAgree(row) <==> AgreeAt(table, statements, row));
    }
  }
}
