/**
 * The truth-table machinery shared by propositions and arguments: the
 * enumeration of all 0/1 assignments in `itertools.product` order, the
 * namespace a row binds, and the loops that fill variable and sentence
 * columns.
 */
module TruthTable {
  import opened Helpers
  import opened Fol

  function Pow2(n: nat): (r: nat)
    ensures r >= 1
  {
    if n == 0 then 1 else 2 * Pow2(n - 1)
  }

  /**
   * `list(product([0, 1], repeat=n))`: every 0/1 tuple of length `n`, the
   * first position varying slowest.
   */
  function Cases(n: nat): (r: seq<seq<Bit>>)
    ensures |r| == Pow2(n)
    ensures forall i :: 0 <= i < |r| ==> |r[i]| == n
  {
    if n == 0 then [[]]
    else
      var c := Cases(n - 1);
      seq(|c|, i requires 0 <= i < |c| => [0 as Bit] + c[i]) + seq(|c|, i requires 0 <= i < |c| => [1 as Bit] + c[i])
  }

  /** The number a row spells in binary, first position most significant. */
  function BinaryValue(row: seq<Bit>): nat
  {
    if |row| == 0 then 0 else (if row[0] == 1 then Pow2(|row| - 1) else 0) + BinaryValue(row[1..])
  }

  /** Row `r` of the cases spells `r` in binary: ascending order, all zeros first. */
  lemma {:induction false} CasesAscending(n: nat, r: nat)
    requires r < Pow2(n)
    ensures BinaryValue(Cases(n)[r]) == r
  {
    if n > 0 {
      var c := Cases(n - 1);
      var half := Pow2(n - 1);
      if r < half {
        CasesAscending(n - 1, r);
        assert Cases(n)[r] == [0] + c[r];
        assert ([0 as Bit] + c[r])[1..] == c[r];
      } else {
        CasesAscending(n - 1, r - half);
        assert Cases(n)[r] == [1] + c[r - half];
        assert ([1 as Bit] + c[r - half])[1..] == c[r - half];
      }
    }
  }

  /** The first half of the cases starts with 0, the second half with 1, each followed by the shorter cases. */
  lemma CasesHalves(n: nat, m: nat, r: nat)
    requires n == m + 1 && r < Pow2(m)
    ensures |Cases(m)[r]| == m
    ensures Cases(n)[r] == [0] + Cases(m)[r]
    ensures Cases(n)[Pow2(m) + r] == [1] + Cases(m)[r]
  {
    var c := Cases(n - 1);
    assert c == Cases(m);
    assert Cases(n) == seq(|c|, i requires 0 <= i < |c| => [0 as Bit] + c[i]) + seq(|c|, i requires 0 <= i < |c| => [1 as Bit] + c[i]);
  }

  /** Every 0/1 tuple of length `n` is a case, at the position it spells. */
  lemma {:induction false} CasesComplete(row: seq<Bit>)
    ensures BinaryValue(row) < Pow2(|row|)
    ensures Cases(|row|)[BinaryValue(row)] == row
  {
    if |row| > 0 {
      var rest := row[1..];
      CasesComplete(rest);
      var v := BinaryValue(rest);
      CasesHalves(|row|, |rest|, v);
      assert Pow2(|row| - 1) == Pow2(|rest|);
      assert row == [row[0]] + rest;
      if row[0] == 0 {
        assert BinaryValue(row) == v;
        assert Cases(|row|)[v] == [0] + rest;
      } else {
        assert BinaryValue(row) == Pow2(|rest|) + v;
        assert Cases(|row|)[Pow2(|rest|) + v] == [1] + rest;
      }
    }
  }

  /** The cases are pairwise distinct, so each tuple occurs exactly once. */
  lemma CasesDistinct(n: nat, r1: nat, r2: nat)
    requires r1 < Pow2(n) && r2 < Pow2(n) && r1 != r2
    ensures Cases(n)[r1] != Cases(n)[r2]
  {
    CasesAscending(n, r1);
    CasesAscending(n, r2);
  }

  /** `s[::-1]`. */
  function Reverse<T>(s: seq<T>): (r: seq<T>)
    ensures |r| == |s| && forall i :: 0 <= i < |s| ==> r[i] == s[|s| - 1 - i]
  {
    seq(|s|, i requires 0 <= i < |s| => s[|s| - 1 - i])
  }

  /** The namespace `{var: case[index] for index, var in enumerate(variables)}`. */
  function Env(vars: seq<string>, row: seq<Bit>): (env: map<string, Bit>)
    requires |vars| == |row|
    ensures env.Keys == Elems(vars)
  {
    if |vars| == 0 then map[]
    else Env(vars[..|vars| - 1], row[..|row| - 1])[vars[|vars| - 1] := row[|row| - 1]]
  }

  /** With distinct variable names, each name is bound to its own position of the row. */
  lemma {:induction false} EnvLookup(vars: seq<string>, row: seq<Bit>, j: nat)
    requires |vars| == |row| && NoDuplicates(vars) && j < |vars|
    ensures Env(vars, row)[vars[j]] == row[j]
  {
    var n := |vars|;
    if j < n - 1 {
      var init := vars[..n - 1];
      assert init[j] == vars[j];
      assert vars[j] != vars[n - 1];
      EnvLookup(init, row[..n - 1], j);
    }
  }

  // ---------------------------------------------------------------------
  // Columns
  // ---------------------------------------------------------------------

  /** The keys of the variable columns. */
  function VarKeys(vars: seq<string>): set<Token>
  {
    set v | v in vars :: Variable(v)
  }

  /** Position `j` of every case, top to bottom. */
  function VarColumn(cases: seq<seq<Bit>>, j: nat): (col: seq<Bit>)
    requires forall r :: 0 <= r < |cases| ==> j < |cases[r]|
    ensures |col| == |cases|
  {
    seq(|cases|, r requires 0 <= r < |cases| => cases[r][j])
  }

  /** Every case's rows have one entry per variable. */
  predicate RowsFit(cases: seq<seq<Bit>>, vars: seq<string>)
  {
    forall r :: 0 <= r < |cases| ==> |cases[r]| == |vars|
  }

  /** The sentence's value under every case, top to bottom. */
  function EvalColumn(s: Token, vars: seq<string>, cases: seq<seq<Bit>>): (col: seq<Bit>)
    requires RowsFit(cases, vars) && Evaluable(s, Elems(vars))
    ensures |col| == |cases|
  {
    seq(|cases|, r requires 0 <= r < |cases| => Eval(s, Env(vars, cases[r])))
  }

  /** `k` copies of `col`, one after the other. */
  function Repeat(k: nat, col: seq<Bit>): (r: seq<Bit>)
    ensures |r| == k * |col|
  {
    if k == 0 then [] else Repeat(k - 1, col) + col
  }

  /** One more copy goes at the end. */
  lemma RepeatStep(k: nat, col: seq<Bit>)
    ensures Repeat(k + 1, col) == Repeat(k, col) + col
  {
  }

  /** The first copy of a repeated column is the column. */
  lemma {:induction false} RepeatPrefix(k: nat, col: seq<Bit>)
    requires k >= 1
    ensures Repeat(k, col)[..|col|] == col
  {
    if k > 1 {
      RepeatPrefix(k - 1, col);
    }
  }

  /** The number of occurrences of `x` in `s`. */
  function Count<T(==)>(s: seq<T>, x: T): (n: nat)
    ensures n > 0 <==> x in s
  {
    if |s| == 0 then 0
    else Count(s[..|s| - 1], x) + (if s[|s| - 1] == x then 1 else 0)
  }

  /**
   * The variable columns: starting from an empty column per variable, case
   * by case the variable's bit is appended.
   */
  method FillVariableColumns(vars: seq<string>, cases: seq<seq<Bit>>) returns (table: map<Token, seq<Bit>>)
    requires NoDuplicates(vars) && RowsFit(cases, vars)
    ensures table.Keys == VarKeys(vars)
    ensures forall j :: 0 <= j < |vars| ==> table[Variable(vars[j])] == VarColumn(cases, j)
  {
    table := map k | k in VarKeys(vars) :: [];
    var j := 0;
    while j < |vars|
      invariant j <= |vars|
      invariant table.Keys == VarKeys(vars)
      invariant forall i :: 0 <= i < j ==> table[Variable(vars[i])] == VarColumn(cases, i)
      invariant forall i :: j <= i < |vars| ==> table[Variable(vars[i])] == []
    {
      var key := Variable(vars[j]);
      var r := 0;
      while r < |cases|
        invariant r <= |cases|
        invariant table.Keys == VarKeys(vars)
        invariant table[key] == VarColumn(cases, j)[..r]
        invariant forall i :: 0 <= i < j ==> table[Variable(vars[i])] == VarColumn(cases, i)
        invariant forall i :: j < i < |vars| ==> table[Variable(vars[i])] == []
      {
        table := table[key := table[key] + [cases[r][j]]];
        r := r + 1;
      }
      j := j + 1;
    }
  }

  /** One more occurrence of `x` in a prefix grows its count by one, any other element leaves it. */
  lemma CountPrefixStep<T>(s: seq<T>, n: nat, x: T)
    requires 0 < n <= |s|
    ensures Count(s[..n], x) == Count(s[..n - 1], x) + (if s[n - 1] == x then 1 else 0)
  {
    assert s[..n][..n - 1] == s[..n - 1];
  }

  /** Case by case, the sentence's value is appended to its column. */
  method AppendEvalColumn(table0: map<Token, seq<Bit>>, s: Token, vars: seq<string>, cases: seq<seq<Bit>>)
    returns (table: map<Token, seq<Bit>>)
    requires RowsFit(cases, vars) && Evaluable(s, Elems(vars)) && s in table0
    ensures table == table0[s := table0[s] + EvalColumn(s, vars, cases)]
  {
    table := table0;
    var r := 0;
    while r < |cases|
      invariant r <= |cases|
      invariant table.Keys == table0.Keys
      invariant table[s] == table0[s] + EvalColumn(s, vars, cases)[..r]
      invariant forall k :: k in table0 && k != s ==> table[k] == table0[k]
    {
      var v := Eval(s, Env(vars, cases[r]));
      assert EvalColumn(s, vars, cases)[..r + 1] == EvalColumn(s, vars, cases)[..r] + [v];
      table := table[s := table[s] + [v]];
      r := r + 1;
    }
    assert EvalColumn(s, vars, cases)[..r] == EvalColumn(s, vars, cases);
  }

  /**
   * The sentence columns: every sentence's column is reset to empty, then
   * sentence by sentence, case by case, the sentence's value is appended. A
   * sentence listed twice has its column filled twice.
   */
  method FillSentenceColumns(table0: map<Token, seq<Bit>>, vars: seq<string>, cases: seq<seq<Bit>>, sentences: seq<Token>)
    returns (table: map<Token, seq<Bit>>)
    requires RowsFit(cases, vars)
    requires forall k :: 0 <= k < |sentences| ==> Evaluable(sentences[k], Elems(vars))
    ensures table.Keys == table0.Keys + Elems(sentences)
    ensures forall k :: k in table0 && k !in sentences ==> table[k] == table0[k]
    ensures forall k :: k in sentences ==> table[k] == Repeat(Count(sentences, k), EvalColumn(k, vars, cases))
  {
    table := table0 + map k | k in Elems(sentences) :: [];
    var m := 0;
    FillStart(table0, table, vars, cases, sentences);
    while m < |sentences|
      invariant m <= |sentences|
      invariant FilledUpTo(table0, table, vars, cases, sentences, m)
    {
      var s := sentences[m];
      ghost var before := table;
      table := AppendEvalColumn(table, s, vars, cases);
      m := m + 1;
      FillStep(table0, before, table, vars, cases, sentences, m);
    }
    FillDone(table0, table, vars, cases, sentences, m);
  }

  /**
   * The state of the fill loop after `m` sentences: the keys are all
   * there, other columns are untouched, and each sentence's column holds
   * its values once per earlier occurrence.
   */
  predicate FilledUpTo(table0: map<Token, seq<Bit>>, table: map<Token, seq<Bit>>, vars: seq<string>, cases: seq<seq<Bit>>,
                       sentences: seq<Token>, m: nat)
    requires RowsFit(cases, vars) && m <= |sentences|
    requires forall k :: 0 <= k < |sentences| ==> Evaluable(sentences[k], Elems(vars))
  {
    table.Keys == table0.Keys + Elems(sentences) &&
    (forall k :: k in table0 && k !in sentences ==> table[k] == table0[k]) &&
    (forall k :: k in sentences ==> table[k] == Repeat(Count(sentences[..m], k), EvalColumn(k, vars, cases)))
  }

  lemma FillStart(table0: map<Token, seq<Bit>>, table: map<Token, seq<Bit>>, vars: seq<string>, cases: seq<seq<Bit>>,
                  sentences: seq<Token>)
    requires RowsFit(cases, vars)
    requires forall k :: 0 <= k < |sentences| ==> Evaluable(sentences[k], Elems(vars))
    requires table == table0 + map k | k in Elems(sentences) :: []
    ensures FilledUpTo(table0, table, vars, cases, sentences, 0)
  {
    forall k | k in sentences
      ensures table[k] == Repeat(Count(sentences[..0], k), EvalColumn(k, vars, cases))
    {
      assert sentences[..0] == [];
    }
  }

  /** Appending the next sentence's values counts that sentence once more. */
  lemma FillStep(table0: map<Token, seq<Bit>>, before: map<Token, seq<Bit>>, after: map<Token, seq<Bit>>,
                 vars: seq<string>, cases: seq<seq<Bit>>, sentences: seq<Token>, n: nat)
    requires 0 < n <= |sentences| && RowsFit(cases, vars)
    requires forall k :: 0 <= k < |sentences| ==> Evaluable(sentences[k], Elems(vars))
    requires FilledUpTo(table0, before, vars, cases, sentences, n - 1)
    requires sentences[n - 1] in before
    requires after == before[sentences[n - 1] := before[sentences[n - 1]] + EvalColumn(sentences[n - 1], vars, cases)]
    ensures FilledUpTo(table0, after, vars, cases, sentences, n)
  {
    forall k | k in sentences
      ensures after[k] == Repeat(Count(sentences[..n], k), EvalColumn(k, vars, cases))
    {
      CountPrefixStep(sentences, n, k);
      if k == sentences[n - 1] {
        RepeatStep(Count(sentences[..n - 1], k), EvalColumn(k, vars, cases));
      }
    }
  }

  lemma FillDone(table0: map<Token, seq<Bit>>, table: map<Token, seq<Bit>>, vars: seq<string>, cases: seq<seq<Bit>>,
                 sentences: seq<Token>, m: nat)
    requires RowsFit(cases, vars) && m == |sentences|
    requires forall k :: 0 <= k < |sentences| ==> Evaluable(sentences[k], Elems(vars))
    requires FilledUpTo(table0, table, vars, cases, sentences, m)
    ensures table.Keys == table0.Keys + Elems(sentences)
    ensures forall k :: k in table0 && k !in sentences ==> table[k] == table0[k]
    ensures forall k :: k in sentences ==> table[k] == Repeat(Count(sentences, k), EvalColumn(k, vars, cases))
  {
    assert sentences[..|sentences|] == sentences;
  }

  // ---------------------------------------------------------------------
  // Columns against all assignments
  // ---------------------------------------------------------------------

  /** `t` holds under every 0/1 assignment to `vars`. */
  ghost predicate HoldsEverywhere(t: Token, vars: seq<string>)
    requires Evaluable(t, Elems(vars))
  {
    forall row: seq<Bit> | |row| == |vars| :: Truth(t, Env(vars, row))
  }

  /** Every 0/1 tuple of length `n` is one of the rows. */
  ghost predicate CoversAll(cases: seq<seq<Bit>>, n: nat)
  {
    forall row: seq<Bit> | |row| == n :: row in cases
  }

  /** The cases, in either order, list every assignment. */
  lemma CasesCoverAll(n: nat)
    ensures CoversAll(Cases(n), n) && CoversAll(Reverse(Cases(n)), n)
  {
    var c := Cases(n);
    forall row: seq<Bit> | |row| == n
      ensures row in c && row in Reverse(c)
    {
      CasesComplete(row);
      var r := BinaryValue(row);
      assert c[r] == row;
      assert Reverse(c)[|c| - 1 - r] == row;
    }
  }

  /**
   * A column is all ones exactly when its sentence holds under every
   * assignment, provided the rows list every assignment.
   */
  lemma ColumnAllOnes(t: Token, vars: seq<string>, cases: seq<seq<Bit>>)
    requires RowsFit(cases, vars) && CoversAll(cases, |vars|) && Evaluable(t, Elems(vars))
    ensures (forall r :: 0 <= r < |cases| ==> EvalColumn(t, vars, cases)[r] == 1) <==> HoldsEverywhere(t, vars)
  {
    var col := EvalColumn(t, vars, cases);
    if forall r :: 0 <= r < |cases| ==> col[r] == 1 {
      forall row: seq<Bit> | |row| == |vars|
        ensures Truth(t, Env(vars, row))
      {
        var r :| 0 <= r < |cases| && cases[r] == row;
        assert col[r] == Eval(t, Env(vars, row)) == 1;
        EvalMeansTruth(t, Env(vars, row));
      }
    }
    if HoldsEverywhere(t, vars) {
      forall r | 0 <= r < |cases|
        ensures col[r] == 1
      {
        EvalMeansTruth(t, Env(vars, cases[r]));
      }
    }
  }

  /**
   * Whether a sentence holds everywhere does not depend on which list of
   * names, covering its variables, the assignments range over.
   */
  lemma HoldsEverywhereTransfer(t: Token, from: seq<string>, to: seq<string>)
    requires NoDuplicates(from) && Evaluable(t, Elems(from)) && Evaluable(t, Elems(to))
    requires HoldsEverywhere(t, from)
    ensures HoldsEverywhere(t, to)
  {
    forall row2: seq<Bit> | |row2| == |to|
      ensures Truth(t, Env(to, row2))
    {
      var row1 := MatchingRow(t, from, to, row2);
      var e1 := Env(from, row1);
      var e2 := Env(to, row2);
      assert Truth(t, e1);
      EvalLocal(t, e1, e2);
      EvalMeansTruth(t, e1);
      EvalMeansTruth(t, e2);
    }
  }

  /** A row over `from` that binds every variable of `t` as `row2` does over `to`. */
  lemma MatchingRow(t: Token, from: seq<string>, to: seq<string>, row2: seq<Bit>) returns (row1: seq<Bit>)
    requires NoDuplicates(from) && Evaluable(t, Elems(from)) && Evaluable(t, Elems(to)) && |row2| == |to|
    ensures |row1| == |from|
    ensures forall n :: n in Occurrences(t) ==>
              n in Env(from, row1) && n in Env(to, row2) && Env(from, row1)[n] == Env(to, row2)[n]
  {
    var e2 := Env(to, row2);
    row1 := seq(|from|, j requires 0 <= j < |from| => if from[j] in e2 then e2[from[j]] else 0);
    var e1 := Env(from, row1);
    forall n | n in Occurrences(t)
      ensures n in e1 && n in e2 && e1[n] == e2[n]
    {
      EvaluableBindsOccurrences(t, Elems(from), n);
      EvaluableBindsOccurrences(t, Elems(to), n);
      var j :| 0 <= j < |from| && from[j] == n;
      EnvLookup(from, row1, j);
    }
  }

  // ---------------------------------------------------------------------
  // Filled tables
  // ---------------------------------------------------------------------

  /** The variable column keys, in the order of the names. */
  function VarTokens(vars: seq<string>): (r: seq<Token>)
    ensures |r| == |vars| && forall k :: k in r <==> k in VarKeys(vars)
  {
    var r := seq(|vars|, i requires 0 <= i < |vars| => Variable(vars[i]));
    assert forall i :: 0 <= i < |vars| ==> r[i] == Variable(vars[i]);
    r
  }

  /** A distinct element is counted once. */
  lemma {:induction false} CountOnce<T>(s: seq<T>, x: T)
    requires NoDuplicates(s) && x in s
    ensures Count(s, x) == 1
  {
    var init := s[..|s| - 1];
    if s[|s| - 1] == x {
      assert x !in init;
    } else {
      assert x in init;
      CountOnce(init, x);
    }
  }

  /** A variable's column is that variable evaluated row by row. */
  lemma VarColumnIsEval(vars: seq<string>, cases: seq<seq<Bit>>, j: nat)
    requires NoDuplicates(vars) && RowsFit(cases, vars) && j < |vars|
    ensures Evaluable(Variable(vars[j]), Elems(vars))
    ensures VarColumn(cases, j) == EvalColumn(Variable(vars[j]), vars, cases)
  {
    forall r | 0 <= r < |cases|
      ensures VarColumn(cases, j)[r] == EvalColumn(Variable(vars[j]), vars, cases)[r]
    {
      EnvLookup(vars, cases[r], j);
    }
  }

  /** Entry `r` of a column is 1 exactly when its sentence holds in row `r`. */
  lemma EvalColumnMeansTruth(t: Token, vars: seq<string>, cases: seq<seq<Bit>>)
    requires RowsFit(cases, vars) && Evaluable(t, Elems(vars))
    ensures forall r :: 0 <= r < |cases| ==> EvalColumn(t, vars, cases)[r] == B2I(Truth(t, Env(vars, cases[r])))
  {
    forall r | 0 <= r < |cases|
      ensures EvalColumn(t, vars, cases)[r] == B2I(Truth(t, Env(vars, cases[r])))
    {
      EvalMeansTruth(t, Env(vars, cases[r]));
    }
  }

  /** Every column is its key evaluated under each row's assignment. */
  predicate ColumnsEvaluate(table: map<Token, seq<Bit>>, vars: seq<string>, cases: seq<seq<Bit>>)
  {
    RowsFit(cases, vars) &&
    forall k :: k in table ==> Evaluable(k, Elems(vars)) && table[k] == EvalColumn(k, vars, cases)
  }

  /**
   * Every column starts with its key evaluated under each row's assignment
   * (a column filled twice holds a second copy after that).
   */
  predicate ColumnsStartWith(table: map<Token, seq<Bit>>, vars: seq<string>, cases: seq<seq<Bit>>)
  {
    RowsFit(cases, vars) &&
    forall k :: k in table ==>
      Evaluable(k, Elems(vars)) && |cases| <= |table[k]| && table[k][..|cases|] == EvalColumn(k, vars, cases)
  }

  /** A sentence column: its first copy is the sentence's values, and it is only that copy when listed once. */
  lemma SentenceColumn(column: seq<Bit>, k: Token, vars: seq<string>, cases: seq<seq<Bit>>, sentences: seq<Token>)
    requires RowsFit(cases, vars) && Evaluable(k, Elems(vars)) && k in sentences
    requires column == Repeat(Count(sentences, k), EvalColumn(k, vars, cases))
    ensures |cases| <= |column| && column[..|cases|] == EvalColumn(k, vars, cases)
    ensures NoDuplicates(sentences) ==> column == EvalColumn(k, vars, cases)
  {
    var col := EvalColumn(k, vars, cases);
    RepeatPrefix(Count(sentences, k), col);
    if NoDuplicates(sentences) {
      CountOnce(sentences, k);
      assert Repeat(1, col) == [] + col;
    }
  }

  /**
   * What the two fill loops produce, read column by column: every column
   * starts with its key's values, and is exactly that when no sentence is
   * listed twice.
   */
  lemma FilledColumns(vt: map<Token, seq<Bit>>, table: map<Token, seq<Bit>>, vars: seq<string>, cases: seq<seq<Bit>>, sentences: seq<Token>)
    requires NoDuplicates(vars) && RowsFit(cases, vars)
    requires forall k :: 0 <= k < |sentences| ==> Evaluable(sentences[k], Elems(vars))
    requires vt.Keys == VarKeys(vars)
    requires forall j :: 0 <= j < |vars| ==> vt[Variable(vars[j])] == VarColumn(cases, j)
    requires table.Keys == vt.Keys + Elems(sentences)
    requires forall k :: k in vt && k !in sentences ==> table[k] == vt[k]
    requires forall k :: k in sentences ==> table[k] == Repeat(Count(sentences, k), EvalColumn(k, vars, cases))
    ensures ColumnsStartWith(table, vars, cases)
    ensures NoDuplicates(sentences) ==> ColumnsEvaluate(table, vars, cases)
  {
    forall k | k in table
      ensures Evaluable(k, Elems(vars)) && |cases| <= |table[k]| && table[k][..|cases|] == EvalColumn(k, vars, cases)
      ensures NoDuplicates(sentences) ==> table[k] == EvalColumn(k, vars, cases)
    {
      if k in sentences {
        var m :| 0 <= m < |sentences| && sentences[m] == k;
        SentenceColumn(table[k], k, vars, cases, sentences);
      } else {
        var j :| 0 <= j < |vars| && k == Variable(vars[j]);
        VarColumnIsEval(vars, cases, j);
        assert table[k][..|cases|] == table[k];
      }
    }
  }

  /** The position of the first `x` in `s`: `list.index`. */
  function FirstIndex<T(==)>(s: seq<T>, x: T): (i: nat)
    requires x in s
    ensures i < |s| && s[i] == x && x !in s[..i]
  {
    if s[0] == x then 0 else 1 + FirstIndex(s[1..], x)
  }

  /**
   * The biconditional of two sentences holds under every assignment to its
   * own variables exactly when the two sentences' columns agree on every
   * row of a table over any list of distinct names covering them.
   */
  lemma BiconditionalHoldsIffColumnsAgree(a: Token, b: Token, vars: seq<string>, rows: seq<seq<Bit>>)
    requires NoDuplicates(vars) && Evaluable(a, Elems(vars)) && Evaluable(b, Elems(vars))
    requires RowsFit(rows, vars) && CoversAll(rows, |vars|)
    ensures Evaluable(Biconditional(a, b), Elems(Variables(Biconditional(a, b))))
    ensures HoldsEverywhere(Biconditional(a, b), Variables(Biconditional(a, b))) <==>
            forall r :: 0 <= r < |rows| ==> EvalColumn(a, vars, rows)[r] == EvalColumn(b, vars, rows)[r]
  {
    HoldsOwnIffAll(Biconditional(a, b), vars);
    BiconditionalColumns(a, b, vars, rows, |rows|);
  }

  /** A sentence holds everywhere over its own variables iff it does over any list of names binding them. */
  lemma HoldsOwnIffAll(t: Token, vars: seq<string>)
    requires NoDuplicates(vars) && Evaluable(t, Elems(vars))
    ensures Evaluable(t, Elems(Variables(t)))
    ensures HoldsEverywhere(t, Variables(t)) <==> HoldsEverywhere(t, vars)
  {
    OwnVariablesSuffice(t, Elems(vars));
    if HoldsEverywhere(t, Variables(t)) {
      HoldsEverywhereTransfer(t, Variables(t), vars);
    }
    if HoldsEverywhere(t, vars) {
      HoldsEverywhereTransfer(t, vars, Variables(t));
    }
  }

  /** Over rows listing every assignment, a biconditional holds everywhere iff its sides' columns agree. */
  lemma BiconditionalColumns(a: Token, b: Token, vars: seq<string>, rows: seq<seq<Bit>>, n: nat)
    requires RowsFit(rows, vars) && CoversAll(rows, |vars|) && n == |rows|
    requires Evaluable(a, Elems(vars)) && Evaluable(b, Elems(vars))
    ensures HoldsEverywhere(Biconditional(a, b), vars) <==>
            forall r :: 0 <= r < n ==> EvalColumn(a, vars, rows)[r] == EvalColumn(b, vars, rows)[r]
  {
    var bic := Biconditional(a, b);
    ColumnAllOnes(bic, vars, rows);
    forall r | 0 <= r < |rows|
      ensures EvalColumn(bic, vars, rows)[r] == 1 <==> EvalColumn(a, vars, rows)[r] == EvalColumn(b, vars, rows)[r]
    {
      EvalByNode(bic, Env(vars, rows[r]));
    }
  }

}
