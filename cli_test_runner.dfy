/** The golden-output test runner: everything the program prints is
    matched against the expected output, which is consumed from the front
    as it matches. The first mismatch ends the run with a failure.
 */
module CliTestRunner {

  /** Why the run fails: the program printed `printed` where the expected
      output had ended, or where the expected output holds `expected`. */
  datatype Failure = TooLong(printed: char) | Differs(printed: char, expected: char)

  /** The result of a check: the expected output still to come, or the
      failure that ends the run. */
  datatype Outcome = Matched(rest: string) | Failed(failure: Failure)

  /** The first position from `i` on where `a` leaves `e`: where they differ
      or where `e` has ended; `|a|` if the rest of `a` matches `e`. */
  function FirstDiff(e: string, a: string, i: nat): (p: nat)
    requires i <= |a|
    ensures i <= p <= |a|
    ensures i < p ==> p <= |e|
    ensures forall k :: i <= k < p ==> a[k] == e[k]
    ensures p < |a| ==> p >= |e| || a[p] != e[p]
    decreases |a| - i
  {
    if i == |a| || i >= |e| || a[i] != e[i] then i else FirstDiff(e, a, i + 1)
  }

  /** `p` is where `a` first leaves `e`. */
  predicate LeavesAt(e: string, a: string, p: nat) {
    p <= |a| && (0 < p ==> p <= |e|) && (forall k :: 0 <= k < p ==> a[k] == e[k])
    && (p < |a| ==> p >= |e| || a[p] != e[p])
  }

  lemma LeavesAtUnique(e: string, a: string, p: nat, q: nat)
    requires LeavesAt(e, a, p) && LeavesAt(e, a, q)
    ensures p == q
  {
  }

  /** What `checkDiff(a)` makes of the expected output `e`: a prefix of `e`
      is consumed; once `e` is used up only a final line break may follow;
      otherwise the first position where `a` leaves `e` is the failure.
      Consuming succeeds only on a prefix, or on the whole expected output
      followed by one line break, which empties it. */
  function Diff(e: string, a: string): (r: Outcome)
    ensures r.Matched? <==> (|a| <= |e| && a == e[..|a|]) || a == e + "\n"
    ensures r.Matched? && |a| <= |e| ==> r.rest == e[|a|..]
    ensures r.Matched? && |a| > |e| ==> r.rest == []
  {
    var p := FirstDiff(e, a, 0);
    if p == |a| then
      assert a == e[..|a|];
      Matched(e[|a|..])
    else if p == |e| && p == |a| - 1 && a[p] == '\n' then
      assert a == e + "\n";
      Matched([])
    else
      assert !(|a| <= |e| && a == e[..|a|]) && a != e + "\n";
      if p >= |e| then Failed(TooLong(a[p])) else Failed(Differs(a[p], e[p]))
  }

  /** A prefix of the expected output is consumed, exactly. */
  lemma DiffPrefix(e: string, a: string)
    requires |a| <= |e| && a == e[..|a|]
    ensures Diff(e, a) == Matched(e[|a|..])
  {
    assert LeavesAt(e, a, |a|);
    LeavesAtUnique(e, a, |a|, FirstDiff(e, a, 0));
  }

  /** The first position whose characters differ is reported as the failure. */
  lemma DiffFirstMismatch(e: string, a: string, i: nat)
    requires i < |a| && i < |e| && a[..i] == e[..i] && a[i] != e[i]
    ensures Diff(e, a) == Failed(Differs(a[i], e[i]))
  {
    assert forall k :: 0 <= k < i ==> a[k] == a[..i][k] && e[k] == e[..i][k];
    assert LeavesAt(e, a, i);
    LeavesAtUnique(e, a, i, FirstDiff(e, a, 0));
  }

  /** Printing past the end of the expected output fails, unless what is
      printed past it is a single final line break. */
  lemma DiffPastEnd(e: string, a: string)
    requires |a| > |e| && a[..|e|] == e
    ensures Diff(e, a) == if a == e + "\n" then Matched([]) else Failed(TooLong(a[|e|]))
  {
    var p := FirstDiff(e, a, 0);
    assert forall k :: 0 <= k < |e| ==> a[k] == a[..|e|][k];
    assert LeavesAt(e, a, |e|);
    LeavesAtUnique(e, a, |e|, p);
  }

  /** The line a halted machine prints last, which the runner skips. */
  const MachineHalted: string := "machine halted"

  /** The runner's state: what the program has yet to print. */
  class Runner {
    var expectedOutput: string

    constructor (expected: string)
      ensures expectedOutput == expected
    {
      expectedOutput := expected;
    }

    /** `checkDiff(a)`: on a match, drop what was matched from the expected
        output; a failure ends the run and leaves it as it was. */
    method CheckDiff(a: string) returns (ok: Outcome)
      modifies this
      ensures ok == Diff(old(expectedOutput), a)
      ensures expectedOutput == if ok.Matched? then ok.rest else old(expectedOutput)
    {
      var e := expectedOutput;
      var l := |a|;
      var i := 0;
      while i < |a|
        invariant 0 <= i <= |a|
        invariant forall k :: 0 <= k < i && k < |e| ==> a[k] == e[k]
        invariant i <= |e| || (i == |a| == |e| + 1 && a[|e|] == '\n')
        invariant l == if i > |e| then |e| else |a|
      {
        if i >= |e| {
          if a[i] == '\n' && i == |a| - 1 {
            l := l - 1;
            i := i + 1;
            continue;
          }
          assert LeavesAt(e, a, i);
          LeavesAtUnique(e, a, i, FirstDiff(e, a, 0));
          return Failed(TooLong(a[i]));
        }
        if a[i] != e[i] {
          assert LeavesAt(e, a, i);
          LeavesAtUnique(e, a, i, FirstDiff(e, a, 0));
          return Failed(Differs(a[i], e[i]));
        }
        i := i + 1;
      }
      if i > |e| {
        assert LeavesAt(e, a, |e|);
        LeavesAtUnique(e, a, |e|, FirstDiff(e, a, 0));
      } else {
        assert LeavesAt(e, a, |a|);
        LeavesAtUnique(e, a, |a|, FirstDiff(e, a, 0));
      }
      expectedOutput := e[l..];
      ok := Matched(expectedOutput);
    }

    /** `print(s)`: only `s` is checked. */
    method Print(s: string) returns (ok: Outcome)
      modifies this
      ensures ok == Diff(old(expectedOutput), s)
      ensures expectedOutput == if ok.Matched? then ok.rest else old(expectedOutput)
    {
      ok := CheckDiff(s);
    }

    /** `println(s)`: `s` and then a line break are checked, except that
        the "machine halted" of a halted machine is not checked at all. */
    method Println(s: string, halted: bool) returns (ok: Outcome)
      modifies this
      ensures ok == PrintlnOutcome(old(expectedOutput), s, halted)
      ensures ok.Matched? ==> expectedOutput == ok.rest
    {
      if halted && s == MachineHalted {
        return Matched(expectedOutput);
      }
      ok := CheckDiff(s);
      if ok.Matched? {
        ok := CheckDiff("\n");
      }
    }
  }

  /** The outcome of `println(s)` against the expected output `e`: apart
      from the skipped "machine halted", it succeeds iff the expected output
      goes on with `s` and then a line break or ends right after `s`, or is
      exactly `s` without its own final line break. */
  function PrintlnOutcome(e: string, s: string, halted: bool): (r: Outcome)
    ensures halted && s == MachineHalted ==> r == Matched(e)
    ensures !(halted && s == MachineHalted) ==>
              (r.Matched? <==> (|s| <= |e| && s == e[..|s|] && (|e| == |s| || e[|s|] == '\n'))
                               || s == e + "\n")
  {
    if halted && s == MachineHalted then Matched(e)
    else
      match Diff(e, s)
      case Failed(f) => Failed(f)
      case Matched(rest) =>
        assert |s| <= |e| ==> rest == e[|s|..];
        assert |s| <= |e| && |rest| > 0 ==> (rest[..1] == "\n" <==> e[|s|] == '\n');
        Diff(rest, "\n")
  }

  /** `println(s)` of a line the expected output holds next consumes the
      line and its line break; the final "machine halted" is skipped. */
  lemma PrintlnLine(e: string, s: string, halted: bool)
    requires |s| + 1 <= |e| && e[..|s| + 1] == s + "\n"
    requires !(halted && s == MachineHalted)
    ensures PrintlnOutcome(e, s, halted) == Matched(e[|s| + 1..])
  {
    assert e[..|s|] == (s + "\n")[..|s|] == s;
    DiffPrefix(e, s);
    var rest := e[|s|..];
    assert rest[..1] == "\n" by { assert rest[0] == e[|s|] == (s + "\n")[|s|]; }
    DiffPrefix(rest, "\n");
    assert rest[1..] == e[|s| + 1..];
  }
}
