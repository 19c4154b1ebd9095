/** How many codes of a compiled expression belong to the subexpression that ends at a given code
    (lib/expr_code.c). */
module ExprCode {
  /** One code: how many arguments it takes, its own value included. */
  datatype Code = Code(nargs: int, hasValue: bool)

  /** Arguments that come from the codes before it. */
  function Arity(c: Code): nat {
    var n := if c.hasValue then c.nargs - 1 else c.nargs;
    if n > 0 then n else 0
  }

  /** The value of a code counts as one of its arguments; the others come from before. */
  lemma ArityExactly(c: Code)
    ensures c.hasValue && c.nargs >= 1 ==> Arity(c) + 1 == c.nargs
    ensures !c.hasValue && c.nargs >= 0 ==> Arity(c) == c.nargs
    ensures c.nargs <= 0 ==> Arity(c) == 0
  {
  }

  // ----- expressions and their code -----

  datatype Tree = Node(code: Code, children: seq<Tree>)

  ghost predicate WellFormed(t: Tree) {
    |t.children| == Arity(t.code) && forall i :: 0 <= i < |t.children| ==> WellFormed(t.children[i])
  }

  function Compile(t: Tree): (codes: seq<Code>)
    ensures codes != []
    decreases t
  {
    CompileAll(t.children) + [t.code]
  }

  function CompileAll(ts: seq<Tree>): seq<Code>
    decreases ts
  {
    if ts == [] then [] else CompileAll(ts[..|ts| - 1]) + Compile(ts[|ts| - 1])
  }

  /** Operands come in order, and their operator behind them. */
  lemma OperatorComesLast(c: Code, ts: seq<Tree>, t: Tree)
    ensures Compile(Node(c, [])) == [c]
    ensures Compile(Node(c, ts + [t])) == CompileAll(ts) + Compile(t) + [c]
  {
    assert (ts + [t])[..|ts|] == ts;
  }

  // ----- counting -----

  /** The codes used by the subexpression that ends at target. */
  function Used(codes: seq<Code>, start: nat, target: nat): (n: nat)
    requires start <= target < |codes|
    ensures n <= target - start && (n == 0 <==> start == target)
    decreases target - start, 0
  {
    if start == target then 0 else 1 + UsedByArguments(codes, start, target - 1, Arity(codes[target]))
  }

  /** The codes used by the k subexpressions that end at `last`, one before the other. */
  function UsedByArguments(codes: seq<Code>, start: nat, last: nat, k: nat): (n: nat)
    requires start <= last < |codes|
    ensures n <= last - start
    decreases last - start, k
  {
    if k == 0 then 0
    else
      var n := Used(codes, start, last);
      n + UsedByArguments(codes, start, last - n, k - 1)
  }

  /** grn_expr_code_n_used_codes.  Its check that it has not gone before `start` never fires. */
  method NUsedCodes(codes: seq<Code>, start: nat, target: nat) returns (n: nat)
    requires start <= target < |codes|
    ensures n == Used(codes, start, target)
    decreases target - start
  {
    if start == target { return 0; }
    var args := codes[target].nargs;
    if codes[target].hasValue {
      args := args - 1;
      if args == 0 { return 1; }
    }
    n := 1;
    var sub := target - 1;
    var i := 0;
    while i < args
      invariant 0 <= i <= Arity(codes[target]) && (args >= 0 ==> i <= args)
      invariant start <= sub < target && n == target - sub
      invariant Used(codes, start, target) == n + UsedByArguments(codes, start, sub, Arity(codes[target]) - i)
    {
      var u := NUsedCodes(codes, start, sub);
      n := n + u;
      sub := sub - u;
      assert start <= sub;
      i := i + 1;
    }
  }

  /** A value alone, such as a constant or a column, is one code. */
  lemma ValueIsOne(codes: seq<Code>, start: nat, target: nat)
    requires start < target < |codes| && codes[target] == Code(1, true)
    ensures Used(codes, start, target) == 1
  {
  }

  // ----- only the codes after start are read -----

  ghost predicate Agree(a: seq<Code>, b: seq<Code>, start: nat, target: nat) {
    target < |a| && target < |b| && forall i :: start < i <= target ==> a[i] == b[i]
  }

  lemma {:induction false} ReadsOnlyAfterStart(a: seq<Code>, b: seq<Code>, start: nat, target: nat)
    requires start <= target && Agree(a, b, start, target)
    ensures Used(a, start, target) == Used(b, start, target)
    decreases target - start, 0
  {
    if start < target { ArgumentsReadOnlyAfterStart(a, b, start, target - 1, Arity(a[target])); }
  }

  lemma {:induction false} ArgumentsReadOnlyAfterStart(a: seq<Code>, b: seq<Code>, start: nat, last: nat, k: nat)
    requires start <= last && Agree(a, b, start, last)
    ensures UsedByArguments(a, start, last, k) == UsedByArguments(b, start, last, k)
    decreases last - start, k
  {
    if k > 0 {
      ReadsOnlyAfterStart(a, b, start, last);
      ArgumentsReadOnlyAfterStart(a, b, start, last - Used(a, start, last), k - 1);
    }
  }

  // ----- the count is the size of the subexpression -----

  /** The codes from `begin` up to `end` (excluded) are those of the trees. */
  ghost predicate AreAt(codes: seq<Code>, begin: nat, end: nat, ts: seq<Tree>) {
    begin <= end <= |codes| && codes[begin..end] == CompileAll(ts)
  }

  ghost predicate IsAt(codes: seq<Code>, begin: nat, end: nat, t: Tree) {
    begin <= end <= |codes| && codes[begin..end] == Compile(t)
  }

  lemma LastIsAt(codes: seq<Code>, begin: nat, end: nat, ts: seq<Tree>)
    requires AreAt(codes, begin, end, ts) && ts != []
    ensures var m := end - |Compile(ts[|ts| - 1])|;
      begin <= m < end && AreAt(codes, begin, m, ts[..|ts| - 1]) && IsAt(codes, m, end, ts[|ts| - 1])
  {
    var front, last := CompileAll(ts[..|ts| - 1]), Compile(ts[|ts| - 1]);
    var all := codes[begin..end];
    assert all == front + last;
    var m := end - |last|;
    assert codes[begin..m] == all[..|front|] && codes[m..end] == all[|front|..];
  }

  /** For the code of any expression: the whole size, or one less for an expression that begins
      at `start` itself. */
  lemma {:induction false} UsedIsSize(codes: seq<Code>, start: nat, begin: nat, target: nat, t: Tree)
    requires WellFormed(t) && start <= begin && target < |codes| && IsAt(codes, begin, target + 1, t)
    ensures Used(codes, start, target) == if begin > start then |Compile(t)| else |Compile(t)| - 1
    decreases t
  {
    var all := codes[begin..target + 1];
    assert all[|all| - 1] == t.code;
    if start < target {
      assert codes[begin..target] == all[..|all| - 1] == CompileAll(t.children);
      ArgumentsAreSize(codes, start, begin, target - 1, t.children);
    }
  }

  lemma {:induction false} ArgumentsAreSize(codes: seq<Code>, start: nat, begin: nat, last: nat, ts: seq<Tree>)
    requires forall i :: 0 <= i < |ts| ==> WellFormed(ts[i])
    requires start <= begin && start <= last < |codes| && AreAt(codes, begin, last + 1, ts)
    ensures UsedByArguments(codes, start, last, |ts|) ==
      if begin > start || ts == [] then |CompileAll(ts)| else |CompileAll(ts)| - 1
    decreases ts
  {
    if ts != [] {
      LastIsAt(codes, begin, last + 1, ts);
      var front, t := ts[..|ts| - 1], ts[|ts| - 1];
      var m := last + 1 - |Compile(t)|;
      UsedIsSize(codes, start, m, last, t);
      if front != [] { ArgumentsAreSize(codes, start, begin, m - 1, front); }
    }
  }

  // ----- and what is counted is always a subexpression -----

  /** Whatever the codes are: a count that stays clear of `start` covers exactly the code of one
      expression. */
  lemma {:induction false} CountedIsTree(codes: seq<Code>, start: nat, target: nat) returns (t: Tree)
    requires start < target < |codes| && Used(codes, start, target) < target - start
    ensures WellFormed(t) && IsAt(codes, target + 1 - Used(codes, start, target), target + 1, t)
    decreases target - start, 0
  {
    var k := Arity(codes[target]);
    var ts := CountedAreTrees(codes, start, target - 1, k);
    t := Node(codes[target], ts);
    var begin := target + 1 - Used(codes, start, target);
    assert codes[begin..target + 1] == codes[begin..target] + [codes[target]];
  }

  lemma {:induction false} CountedAreTrees(codes: seq<Code>, start: nat, last: nat, k: nat) returns (ts: seq<Tree>)
    requires start < last < |codes| && UsedByArguments(codes, start, last, k) < last - start
    ensures |ts| == k && forall i :: 0 <= i < k ==> WellFormed(ts[i])
    ensures AreAt(codes, last + 1 - UsedByArguments(codes, start, last, k), last + 1, ts)
    decreases last - start, k
  {
    if k == 0 {
      ts := [];
    } else {
      var n := Used(codes, start, last);
      var t := CountedIsTree(codes, start, last);
      var front := CountedAreTrees(codes, start, last - n, k - 1);
      ts := front + [t];
      assert ts[..k - 1] == front;
      var begin, m := last + 1 - UsedByArguments(codes, start, last, k), last + 1 - n;
      assert codes[begin..last + 1] == codes[begin..m] + codes[m..last + 1];
    }
  }
}
