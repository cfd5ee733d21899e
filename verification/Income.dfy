/** The income statement read on the ledger by account prefix
    (crates/griffe-core/src/accounting.rs). */
module Income {
  import opened Money
  import opened Vat

  predicate StartsWith(account: string, prefix: string) { prefix <= account }

  predicate IsRevenue(n: string) { StartsWith(n, "706") }

  predicate IsRemuneration(n: string) { StartsWith(n, "641") || StartsWith(n, "645") }

  predicate IsDepreciation(n: string) { StartsWith(n, "681") }

  predicate IsExpense(n: string) {
    && StartsWith(n, "6") && !StartsWith(n, "641") && !StartsWith(n, "645")
    && !StartsWith(n, "681") && !StartsWith(n, "695") && !StartsWith(n, "699")
  }

  predicate IsResultBeforeTax(n: string) {
    n != "" && (n[0] == '6' || n[0] == '7') && !StartsWith(n, "695") && !StartsWith(n, "699")
  }

  /** Class 7 other than services: no filter of the source names it. */
  predicate IsOtherIncome(n: string) { StartsWith(n, "7") && !StartsWith(n, "706") }

  function SignedLines(lines: seq<Line>, keep: string -> bool): Cents {
    if lines == [] then 0
    else SignedLines(lines[..|lines| - 1], keep)
         + if keep(lines[|lines| - 1].account) then lines[|lines| - 1].amount else 0
  }

  function SignedOn(entries: seq<Entry>, keep: string -> bool): Cents {
    if entries == [] then 0
    else SignedOn(entries[..|entries| - 1], keep) + SignedLines(entries[|entries| - 1].lines, keep)
  }

  lemma PrefixesPartition(n: string)
    ensures IsResultBeforeTax(n) <==>
            IsRevenue(n) || IsOtherIncome(n) || IsExpense(n) || IsRemuneration(n) || IsDepreciation(n)
    ensures !(IsRevenue(n) && IsOtherIncome(n)) && !(IsExpense(n) && IsRemuneration(n))
    ensures !(IsExpense(n) && IsDepreciation(n)) && !(IsRemuneration(n) && IsDepreciation(n))
    ensures (IsRevenue(n) || IsOtherIncome(n)) ==> !IsExpense(n) && !IsRemuneration(n) && !IsDepreciation(n)
  {
    assert StartsWith(n, "6") ==> n[0] == '6';
    assert StartsWith(n, "7") <==> n != "" && n[0] == '7';
    assert StartsWith(n, "706") ==> n[0] == '7';
    assert IsRemuneration(n) || IsDepreciation(n) ==> n[0] == '6' && !StartsWith(n, "695") && !StartsWith(n, "699") by {
      assert StartsWith(n, "641") || StartsWith(n, "645") ==> n[0] == '6' && n[1] == '4';
      assert StartsWith(n, "681") ==> n[0] == '6' && n[1] == '8';
      assert StartsWith(n, "695") || StartsWith(n, "699") ==> n[1] == '9';
    }
    assert StartsWith(n, "641") ==> n[1] == '4';
    assert StartsWith(n, "645") ==> n[1] == '4';
    assert StartsWith(n, "681") ==> n[1] == '8';
    assert n != "" && n[0] == '6' ==> StartsWith(n, "6");
  }

  lemma {:induction false} LinesArePartitioned(lines: seq<Line>)
    ensures SignedLines(lines, IsResultBeforeTax)
         == SignedLines(lines, IsRevenue) + SignedLines(lines, IsOtherIncome) + SignedLines(lines, IsExpense)
          + SignedLines(lines, IsRemuneration) + SignedLines(lines, IsDepreciation)
  {
    if lines != [] {
      LinesArePartitioned(lines[..|lines| - 1]);
      PrefixesPartition(lines[|lines| - 1].account);
    }
  }

  /** For every ledger, the result before tax is the revenue and the other income less the
      expenses, the remuneration and the depreciation: no account of classes 6 and 7 is
      counted twice or forgotten, tax and carry-back aside. */
  lemma {:induction false} ResultIsItsParts(entries: seq<Entry>)
    ensures -SignedOn(entries, IsResultBeforeTax)
         == -SignedOn(entries, IsRevenue) - SignedOn(entries, IsOtherIncome) - SignedOn(entries, IsExpense)
          - SignedOn(entries, IsRemuneration) - SignedOn(entries, IsDepreciation)
  {
    if entries != [] {
      ResultIsItsParts(entries[..|entries| - 1]);
      LinesArePartitioned(entries[|entries| - 1].lines);
    }
  }

  predicate IsAny(n: string) { true }

  predicate IsOutsideResult(n: string) { !IsResultBeforeTax(n) }

  lemma {:induction false} LinesAreInOrOut(lines: seq<Line>)
    ensures SignedLines(lines, IsAny) == SignedLines(lines, IsResultBeforeTax) + SignedLines(lines, IsOutsideResult)
  {
    if lines != [] {
      LinesAreInOrOut(lines[..|lines| - 1]);
    }
  }

  /** When every entry balances, the result before tax is also what the other accounts gained. */
  lemma {:induction false} BalancedResultIsInTheOtherAccounts(entries: seq<Entry>)
    requires forall i :: 0 <= i < |entries| ==> SignedLines(entries[i].lines, IsAny) == 0
    ensures -SignedOn(entries, IsResultBeforeTax) == SignedOn(entries, IsOutsideResult)
  {
    if entries != [] {
      BalancedResultIsInTheOtherAccounts(entries[..|entries| - 1]);
      LinesAreInOrOut(entries[|entries| - 1].lines);
    }
  }
}
