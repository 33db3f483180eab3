/** The two Fibonacci programs.  `fib_shm` checks 0 <= n <= MAX_SEQUENCE,
    has its child fill an array in shared memory and its parent print the
    array; `fib_fork` checks n >= 0 and has its child print the sequence
    from two rolling variables.  Both print the first n Fibonacci numbers
    separated by single spaces, followed by a newline only when n > 0.
    What the processes print is returned as a string. */
module Fib {
  import opened Wrappers
  import CNum
  import Cells

  /** Capacity of the shared `fib_sequence` array. */
  const MaxSequence: nat := 10

  function Fib(n: nat): nat {
    if n < 2 then n else Fib(n - 1) + Fib(n - 2)
  }

  /** The first `n` Fibonacci numbers. */
  function FibSeq(n: nat): (r: seq<int>)
    ensures |r| == n && forall i :: 0 <= i < n ==> r[i] == Fib(i)
  {
    seq(n, i requires 0 <= i < n => Fib(i))
  }

  /** The values as `printf("%ld")` prints them, one space between two
      values. */
  function Printed(vals: seq<int>): string {
    if vals == [] then []
    else if |vals| == 1 then CNum.Decimal(vals[0])
    else Printed(vals[..|vals| - 1]) + " " + CNum.Decimal(vals[|vals| - 1])
  }

  /** The whole output: the values, then a newline when there was one. */
  function Line(vals: seq<int>): string {
    if vals == [] then [] else Printed(vals) + "\n"
  }

  /** The tokens of the printed values. */
  function Tokens(vals: seq<int>): (r: seq<string>)
    ensures |r| == |vals| && forall i :: 0 <= i < |vals| ==> r[i] == CNum.Decimal(vals[i])
  {
    seq(|vals|, i requires 0 <= i < |vals| => CNum.Decimal(vals[i]))
  }

  /** Splitting the printed values on the spaces gives one token per
      value. */
  lemma {:induction false} PrintedSplit(vals: seq<int>)
    requires vals != []
    ensures Cells.Split(Printed(vals), ' ') == Tokens(vals)
  {
    var last := CNum.Decimal(vals[|vals| - 1]);
    if |vals| == 1 {
      Cells.SplitNone(last, ' ');
      assert Tokens(vals) == [last];
    } else {
      var init := vals[..|vals| - 1];
      assert Printed(vals) == Printed(init) + [' '] + last;
      assert Cells.Split(Printed(init), ' ') == Tokens(init) by { PrintedSplit(init); }
      assert Cells.Split(Printed(vals), ' ') == Cells.Split(Printed(init), ' ') + [last] by {
        Cells.SplitSnoc(Printed(init), ' ', last);
      }
      TokensSnoc(vals);
    }
  }

  lemma TokensSnoc(vals: seq<int>)
    requires vals != []
    ensures Tokens(vals) == Tokens(vals[..|vals| - 1]) + [CNum.Decimal(vals[|vals| - 1])]
  {
    var a, b := Tokens(vals), Tokens(vals[..|vals| - 1]) + [CNum.Decimal(vals[|vals| - 1])];
    forall i | 0 <= i < |a| ensures a[i] == b[i] {
      if i < |vals| - 1 { assert b[i] == CNum.Decimal(vals[..|vals| - 1][i]); }
    }
  }

  /** Reading the output back: no output for n = 0; otherwise a line of
      exactly |vals| space-separated tokens, the k-th of which strtol reads
      completely as vals[k]. */
  lemma ReadBack(vals: seq<int>)
    requires forall k :: 0 <= k < |vals| ==> CNum.LongMin <= vals[k] <= CNum.LongMax
    ensures vals == [] <==> Line(vals) == []
    ensures vals != [] ==>
      var l := Line(vals);
      l[|l| - 1] == '\n' && '\n' !in l[..|l| - 1]
      && |Cells.Split(l[..|l| - 1], ' ')| == |vals|
      && forall k :: 0 <= k < |vals| ==> CNum.ParseArg(Cells.Split(l[..|l| - 1], ' ')[k]) == Some(vals[k])
  {
    if vals != [] {
      var l := Line(vals);
      assert l[..|l| - 1] == Printed(vals);
      PrintedSplit(vals);
      PrintedLines(vals);
      forall k | 0 <= k < |vals| ensures CNum.ParseArg(Tokens(vals)[k]) == Some(vals[k]) {
        CNum.ParseDecimal(vals[k]);
      }
    }
  }

  lemma {:induction false} PrintedLines(vals: seq<int>)
    ensures '\n' !in Printed(vals)
  {
    if |vals| > 1 {
      PrintedLines(vals[..|vals| - 1]);
    }
  }

  /** fib_shm's check: strtol must read the whole argument and give
      0 <= n <= MAX_SEQUENCE. */
  function ShmArg(arg: string): (r: Option<nat>)
    ensures r.Some? <==> CNum.ParseArg(arg).Some? && 0 <= CNum.ParseArg(arg).value <= MaxSequence
    ensures r.Some? ==> r.value == CNum.ParseArg(arg).value
  {
    match CNum.ParseArg(arg)
    case Some(n) => if n < 0 || n > MaxSequence then None else Some(n)
    case None => None
  }

  /** fib_fork's check: strtol must read the whole argument and give
      n >= 0. */
  function ForkArg(arg: string): (r: Option<nat>)
    ensures r.Some? <==> CNum.ParseArg(arg).Some? && CNum.ParseArg(arg).value >= 0
    ensures r.Some? ==> r.value == CNum.ParseArg(arg).value
  {
    match CNum.ParseArg(arg)
    case Some(n) => if n < 0 then None else Some(n)
    case None => None
  }

  /** fib_shm's child: fills the first `n` slots of the shared array and
      leaves the rest alone. */
  method FillSequence(fib: array<int>, n: nat)
    requires fib.Length == MaxSequence && n <= MaxSequence
    modifies fib
    ensures fib[..n] == FibSeq(n)
    ensures fib[n..] == old(fib[n..])
  {
    ghost var f0 := fib[..];
    if n >= 1 { fib[0] := 0; }
    if n >= 2 { fib[1] := 1; }
    assert fib[n..] == f0[n..];
    var i := 2;
    while i < n
      invariant 2 <= i && (n >= 2 ==> i <= n)
      invariant FibUpTo(fib[..], if i < n then i else n)
      invariant fib[n..] == f0[n..]
    {
      fib[i] := fib[i - 1] + fib[i - 2];
      i := i + 1;
    }
    FibUpToSeq(fib[..], n);
  }

  /** The first `m` entries of `s` are Fibonacci numbers. */
  ghost predicate FibUpTo(s: seq<int>, m: nat) {
    m <= |s| && forall k :: 0 <= k < m ==> s[k] == Fib(k)
  }

  lemma FibUpToSeq(s: seq<int>, n: nat)
    requires FibUpTo(s, n)
    ensures s[..n] == FibSeq(n)
  {
    assert forall k :: 0 <= k < n ==> s[..n][k] == FibSeq(n)[k];
  }

  /** fib_shm's parent: prints `sequence_size` values of the array, a
      space before every value but the first, and a newline when
      `n > 0`; `sequence_size` was set to `n`. */
  method PrintSequence(fib: array<int>, n: nat) returns (out: string)
    requires n <= fib.Length
    ensures out == Line(fib[..n])
  {
    out := [];
    for i := 0 to n
      invariant out == Printed(fib[..i])
    {
      assert fib[..i + 1][..i] == fib[..i];
      if i > 0 { out := out + " "; }
      out := out + CNum.Decimal(fib[i]);
    }
    if n > 0 { out := out + "\n"; }
  }

  /** fib_fork's child: the first value is `a`, the second `b`, and after
      that each step rolls (a, b) one place on and prints the new `b`; at
      the top of step i >= 2, (a, b) == (Fib(i - 2), Fib(i - 1)). */
  method ForkSequence(n: nat) returns (out: string)
    ensures out == Line(FibSeq(n))
  {
    var a, b := 0, 1;
    out := [];
    var i := 0;
    while i < n
      invariant 0 <= i <= n
      invariant i < 2 ==> a == 0 && b == 1
      invariant i >= 2 ==> a == Fib(i - 2) && b == Fib(i - 1)
      invariant out == Printed(FibSeq(i))
    {
      assert FibSeq(i + 1)[..i] == FibSeq(i);
      if i == 0 {
        out := out + CNum.Decimal(a);
      } else if i == 1 {
        out := out + " " + CNum.Decimal(b);
      } else {
        var c := a + b;
        a := b;
        b := c;
        out := out + " " + CNum.Decimal(b);
      }
      i := i + 1;
    }
    if n > 0 { out := out + "\n"; }
  }
}
