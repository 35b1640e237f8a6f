/**
 * The argument resolver of `main` in scripts/ai-update.ts: the raw argument list
 * (the process arguments after the interpreter and the script) becomes either
 * "show usage" or a request record. The first argument is the file path; the
 * rest are scanned left to right, and `--context`, `--apply` and `--output` each
 * take the next token as their value when that token exists and is non-empty.
 */
module Arguments {
  import opened Wrappers

  const ContextFlag: string := "--context"
  const ApplyFlag: string := "--apply"
  const OutputFlag: string := "--output"

  /** The resolved request; an option is `None` when its flag was never registered. */
  datatype Request = Request(
    filePath: string,
    context: Option<string>,
    applyInstructions: Option<string>,
    outputFile: Option<string>)

  datatype Parsed = ShowUsage | Resolved(request: Request)

  predicate IsValueFlag(token: string) {
    token == ContextFlag || token == ApplyFlag || token == OutputFlag
  }

  /** `args[j + 1]`, which is `undefined` past the end of the list. */
  function Next(args: seq<string>, j: nat): Option<string> {
    if j + 1 < |args| then Some(args[j + 1]) else None
  }

  /** The token at `j` is a value flag whose following token is truthy, so the flag takes it. */
  predicate Registers(args: seq<string>, j: nat) {
    j < |args| && IsValueFlag(args[j]) && Truthy(Next(args, j))
  }

  /** Position `j` is the value of a flag registered just before it, so the loop jumps over it. */
  predicate Skipped(args: seq<string>, j: nat)
    decreases j
  {
    j >= 2 && !Skipped(args, j - 1) && Registers(args, j - 1)
  }

  /** Position `j` is one the loop looks at: flag scanning starts at index 1. */
  predicate Scanned(args: seq<string>, j: nat) {
    1 <= j < |args| && !Skipped(args, j)
  }

  /** A scanned occurrence of `flag` at `j` that takes the token after it. */
  predicate RegisteredAt(args: seq<string>, flag: string, j: nat) {
    Scanned(args, j) && args[j] == flag && Registers(args, j)
  }

  /**
   * The value of the last registered occurrence of `flag` among positions below `n`;
   * a registered value is never the empty string.
   */
  function LastValueBelow(args: seq<string>, flag: string, n: nat): (v: Option<string>)
    requires n <= |args|
    ensures v.Some? ==> v.value != ""
    ensures v.Some? ==> exists j: nat :: j < n && RegisteredAt(args, flag, j) && args[j + 1] == v.value
    decreases n
  {
    if n <= 1 then None
    else if RegisteredAt(args, flag, n - 1) then Some(args[n])
    else LastValueBelow(args, flag, n - 1)
  }

  /** The value the whole loop leaves in the variable of `flag`. */
  function FlagValue(args: seq<string>, flag: string): Option<string> {
    LastValueBelow(args, flag, |args|)
  }

  /** What the resolver produces: the specification the loop is proved against. */
  function Resolve(args: seq<string>): Parsed {
    if |args| == 0 then ShowUsage
    else Resolved(Request(args[0], FlagValue(args, ContextFlag),
                          FlagValue(args, ApplyFlag), FlagValue(args, OutputFlag)))
  }

  /** The loop of `main`, with its manual skip over a consumed value. */
  method ResolveArguments(args: seq<string>) returns (p: Parsed)
    ensures p.ShowUsage? <==> |args| == 0
    ensures p.Resolved? ==> p.request.filePath == args[0]
    ensures p == Resolve(args)
  {
    if |args| == 0 {
      return ShowUsage;
    }
    var filePath := args[0];
    var context: Option<string> := None;
    var applyInstructions: Option<string> := None;
    var outputFile: Option<string> := None;
    var i := 1;
    while i < |args|
      invariant 1 <= i <= |args|
      invariant i < |args| ==> !Skipped(args, i)
      invariant context == LastValueBelow(args, ContextFlag, i)
      invariant applyInstructions == LastValueBelow(args, ApplyFlag, i)
      invariant outputFile == LastValueBelow(args, OutputFlag, i)
      decreases |args| - i
    {
      LastValueStep(args, ContextFlag, i);
      LastValueStep(args, ApplyFlag, i);
      LastValueStep(args, OutputFlag, i);
      ScanAdvancesByOneOrTwo(args, i);
      if args[i] == ContextFlag && Truthy(Next(args, i)) {
        context := Some(args[i + 1]);
        i := i + 1;
      } else if args[i] == ApplyFlag && Truthy(Next(args, i)) {
        applyInstructions := Some(args[i + 1]);
        i := i + 1;
      } else if args[i] == OutputFlag && Truthy(Next(args, i)) {
        outputFile := Some(args[i + 1]);
        i := i + 1;
      }
      i := i + 1;
    }
    p := Resolved(Request(filePath, context, applyInstructions, outputFile));
  }

  /**
   * From a scanned position the loop moves on by two when the flag there registers,
   * never scanning the value it took, and by one otherwise.
   */
  lemma ScanAdvancesByOneOrTwo(args: seq<string>, j: nat)
    requires Scanned(args, j)
    ensures Registers(args, j) ==> !Scanned(args, j + 1) && (j + 2 < |args| ==> Scanned(args, j + 2))
    ensures !Registers(args, j) && j + 1 < |args| ==> Scanned(args, j + 1)
  {
  }

  /**
   * One step of the loop for the variable of `flag`: a registering flag moves its own
   * variable to the token it took and leaves the others alone, any other token leaves
   * every variable alone.
   */
  lemma LastValueStep(args: seq<string>, flag: string, i: nat)
    requires Scanned(args, i)
    ensures Registers(args, i) ==> LastValueBelow(args, flag, i + 2)
                                   == if args[i] == flag then Some(args[i + 1]) else LastValueBelow(args, flag, i)
    ensures !Registers(args, i) ==> LastValueBelow(args, flag, i + 1) == LastValueBelow(args, flag, i)
  {
    if Registers(args, i) {
      assert !RegisteredAt(args, flag, i + 1);
    }
  }

  // ----- Last wins -----

  lemma {:induction false} LastValueBelowFrom(args: seq<string>, flag: string, j: nat, n: nat)
    requires j < n <= |args|
    requires RegisteredAt(args, flag, j)
    requires forall k: nat :: j < k < n ==> !RegisteredAt(args, flag, k)
    ensures LastValueBelow(args, flag, n) == Some(args[j + 1])
    decreases n
  {
    if n - 1 != j {
      LastValueBelowFrom(args, flag, j, n - 1);
    }
  }

  /** The last registered occurrence of a flag decides its value. */
  lemma LastRegisteredWins(args: seq<string>, flag: string, j: nat)
    requires RegisteredAt(args, flag, j)
    requires forall k: nat :: j < k ==> !RegisteredAt(args, flag, k)
    ensures FlagValue(args, flag) == Some(args[j + 1])
  {
    LastValueBelowFrom(args, flag, j, |args|);
  }

  lemma {:induction false} NoneBelowMeansUnregistered(args: seq<string>, flag: string, n: nat, j: nat)
    requires n <= |args|
    requires LastValueBelow(args, flag, n) == None
    requires j < n
    ensures !RegisteredAt(args, flag, j)
    decreases n
  {
    if n > 1 && j < n - 1 {
      NoneBelowMeansUnregistered(args, flag, n - 1, j);
    }
  }

  /** A flag keeps `undefined` exactly when none of its occurrences registered. */
  lemma UnsetIffNeverRegistered(args: seq<string>, flag: string)
    ensures FlagValue(args, flag) == None <==> forall j: nat :: !RegisteredAt(args, flag, j)
  {
    if FlagValue(args, flag) == None {
      forall j: nat ensures !RegisteredAt(args, flag, j) {
        if j < |args| {
          NoneBelowMeansUnregistered(args, flag, |args|, j);
        }
      }
    }
  }

  // ----- The file path is never a flag -----

  lemma {:induction false} SkippedIgnoresFirst(args: seq<string>, t: string, j: nat)
    requires |args| >= 1
    ensures Skipped(args[0 := t], j) == Skipped(args, j)
    decreases j
  {
    if j >= 2 {
      SkippedIgnoresFirst(args, t, j - 1);
    }
  }

  lemma {:induction false} LastValueIgnoresFirst(args: seq<string>, t: string, flag: string, n: nat)
    requires 1 <= |args| && n <= |args|
    ensures LastValueBelow(args[0 := t], flag, n) == LastValueBelow(args, flag, n)
    decreases n
  {
    if n > 1 {
      SkippedIgnoresFirst(args, t, n - 1);
      LastValueIgnoresFirst(args, t, flag, n - 1);
    }
  }

  /** `args[0]` is only ever the file path: replacing it changes nothing else. */
  lemma FilePathNeverScanned(args: seq<string>, t: string)
    requires |args| >= 1
    ensures Resolve(args[0 := t]) == Resolved(Resolve(args).request.(filePath := t))
  {
    LastValueIgnoresFirst(args, t, ContextFlag, |args|);
    LastValueIgnoresFirst(args, t, ApplyFlag, |args|);
    LastValueIgnoresFirst(args, t, OutputFlag, |args|);
  }

  // ----- Appending tokens -----

  lemma {:induction false} SkippedOnPrefix(args: seq<string>, ext: seq<string>, j: nat)
    requires j < |args|
    ensures Skipped(args + ext, j) == Skipped(args, j)
    decreases j
  {
    if j >= 2 {
      SkippedOnPrefix(args, ext, j - 1);
    }
  }

  lemma {:induction false} LastValueOnPrefix(args: seq<string>, ext: seq<string>, flag: string, n: nat)
    requires n < |args|
    ensures LastValueBelow(args + ext, flag, n) == LastValueBelow(args, flag, n)
    decreases n
  {
    if n > 1 {
      SkippedOnPrefix(args, ext, n - 1);
      LastValueOnPrefix(args, ext, flag, n - 1);
    }
  }

  /** A final token the loop scans (not taken as a value) changes nothing, whatever it is. */
  lemma TrailingTokenIgnored(args: seq<string>, t: string)
    requires |args| >= 1
    requires Scanned(args + [t], |args|)
    ensures Resolve(args + [t]) == Resolve(args)
  {
    var n := |args|;
    var ext := args + [t];
    forall flag | IsValueFlag(flag)
      ensures FlagValue(ext, flag) == FlagValue(args, flag)
    {
      assert LastValueBelow(ext, flag, n + 1) == LastValueBelow(ext, flag, n);
      if n > 1 {
        assert !RegisteredAt(ext, flag, n - 1);
        assert !RegisteredAt(args, flag, n - 1);
        assert LastValueBelow(ext, flag, n) == LastValueBelow(ext, flag, n - 1);
        assert LastValueBelow(args, flag, n) == LastValueBelow(args, flag, n - 1);
        LastValueOnPrefix(args, [t], flag, n - 1);
      }
    }
  }

  /** A flag as the last token is not registered and changes nothing. */
  lemma TrailingFlagIgnored(args: seq<string>, flag: string)
    requires |args| >= 1 && IsValueFlag(flag)
    requires Scanned(args + [flag], |args|)
    ensures Resolve(args + [flag]) == Resolve(args)
  {
    TrailingTokenIgnored(args, flag);
  }

  /** An empty string is never taken as a value, so appending one changes nothing. */
  lemma TrailingEmptyIgnored(args: seq<string>)
    requires |args| >= 1
    ensures Resolve(args + [""]) == Resolve(args)
  {
    assert !Registers(args + [""], |args| - 1);
    TrailingTokenIgnored(args, "");
  }

  /** A flag registered after every earlier one overrides it, and leaves the other flags alone. */
  lemma LaterFlagOverrides(args: seq<string>, flag: string, v: string, other: string)
    requires |args| >= 1 && IsValueFlag(flag) && v != ""
    requires Scanned(args + [flag, v], |args|)
    requires other != flag
    ensures FlagValue(args + [flag, v], flag) == Some(v)
    ensures FlagValue(args + [flag, v], other) == FlagValue(args, other)
  {
    var n := |args|;
    var ext := args + [flag, v];
    assert RegisteredAt(ext, flag, n);
    assert Skipped(ext, n + 1);
    assert LastValueBelow(ext, flag, n + 2) == LastValueBelow(ext, flag, n + 1) == Some(v);
    assert LastValueBelow(ext, other, n + 2) == LastValueBelow(ext, other, n + 1)
        == LastValueBelow(ext, other, n);
    if n > 1 {
      assert !RegisteredAt(ext, other, n - 1);
      assert !RegisteredAt(args, other, n - 1);
      assert LastValueBelow(ext, other, n) == LastValueBelow(ext, other, n - 1);
      assert LastValueBelow(args, other, n) == LastValueBelow(args, other, n - 1);
      LastValueOnPrefix(args, [flag, v], other, n - 1);
    }
  }

  // ----- Comparing two argument lists position by position -----

  /**
   * When two lists agree on which positions register from `m` on, and on whether
   * position `m` is skipped, they agree on every later skip.
   */
  lemma {:induction false} SkippedAgree(a: seq<string>, b: seq<string>, m: nat, k: nat)
    requires 1 <= m <= k
    requires Skipped(a, m) == Skipped(b, m)
    requires forall i: nat :: m <= i < k ==> Registers(a, i) == Registers(b, i)
    ensures Skipped(a, k) == Skipped(b, k)
    decreases k
  {
    if k > m {
      SkippedAgree(a, b, m, k - 1);
    }
  }

  /** The same, with list `a` shifted one place to the right of list `b`. */
  lemma {:induction false} SkippedAgreeShifted(a: seq<string>, b: seq<string>, m: nat, k: nat)
    requires 1 <= m <= k
    requires Skipped(a, m + 1) == Skipped(b, m)
    requires forall i: nat :: m <= i < k ==> Registers(a, i + 1) == Registers(b, i)
    ensures Skipped(a, k + 1) == Skipped(b, k)
    decreases k
  {
    if k > m {
      SkippedAgreeShifted(a, b, m, k - 1);
    }
  }

  /**
   * When two lists agree, from `m` on, on where `flag` registers and on the value it
   * takes there, the last value below agrees as well.
   */
  lemma {:induction false} LastValueAgree(a: seq<string>, b: seq<string>, flag: string, m: nat, n: nat)
    requires 1 <= m <= n <= |a| && n <= |b|
    requires LastValueBelow(a, flag, m) == LastValueBelow(b, flag, m)
    requires forall i: nat :: m <= i < n ==> RegisteredAt(a, flag, i) == RegisteredAt(b, flag, i)
    requires forall i: nat :: m <= i < n && RegisteredAt(a, flag, i) && RegisteredAt(b, flag, i) ==>
               a[i + 1] == b[i + 1]
    ensures LastValueBelow(a, flag, n) == LastValueBelow(b, flag, n)
    decreases n
  {
    if n > m {
      LastValueAgree(a, b, flag, m, n - 1);
      assert RegisteredAt(a, flag, n - 1) == RegisteredAt(b, flag, n - 1);
    }
  }

  /** The same, with list `a` shifted one place to the right of list `b`. */
  lemma {:induction false} LastValueAgreeShifted(a: seq<string>, b: seq<string>, flag: string, m: nat, n: nat)
    requires 1 <= m <= n && n + 1 <= |a| && n <= |b|
    requires LastValueBelow(a, flag, m + 1) == LastValueBelow(b, flag, m)
    requires forall i: nat :: m <= i < n ==> RegisteredAt(a, flag, i + 1) == RegisteredAt(b, flag, i)
    requires forall i: nat :: m <= i < n && RegisteredAt(a, flag, i + 1) && RegisteredAt(b, flag, i) ==>
               a[i + 2] == b[i + 1]
    ensures LastValueBelow(a, flag, n + 1) == LastValueBelow(b, flag, n)
    decreases n
  {
    if n > m {
      LastValueAgreeShifted(a, b, flag, m, n - 1);
      assert RegisteredAt(a, flag, n) == RegisteredAt(b, flag, n - 1);
    }
  }

  /** `args` with `t` put in at position `j`. */
  function InsertToken(args: seq<string>, j: nat, t: string): (a: seq<string>)
    requires j <= |args|
    ensures |a| == |args| + 1 && a[j] == t
    ensures forall i: nat :: i < j ==> a[i] == args[i]
    ensures forall i: nat :: j <= i < |args| ==> a[i + 1] == args[i]
  {
    args[..j] + [t] + args[j..]
  }

  lemma InsertTokenRegisters(args: seq<string>, j: nat, t: string)
    requires 1 <= j <= |args|
    requires !IsValueFlag(t)
    ensures forall i: nat :: 1 <= i < j - 1 ==> Registers(InsertToken(args, j, t), i) == Registers(args, i)
    ensures forall i: nat :: j <= i < |args| ==> Registers(InsertToken(args, j, t), i + 1) == Registers(args, i)
    ensures !Registers(InsertToken(args, j, t), j)
  {
  }

  /** Below the inserted token both lists skip alike. */
  lemma InsertTokenSkipBelow(args: seq<string>, j: nat, t: string, k: nat)
    requires 1 <= j <= |args| && k < j
    requires !IsValueFlag(t)
    ensures Skipped(InsertToken(args, j, t), k) == Skipped(args, k)
  {
    if k >= 1 {
      InsertTokenRegisters(args, j, t);
      SkippedAgree(InsertToken(args, j, t), args, 1, k);
    }
  }

  /** The inserted token is scanned, so neither it nor the token after it is skipped. */
  lemma InsertTokenSkipAt(args: seq<string>, j: nat, t: string)
    requires 1 <= j <= |args|
    requires t != "" && !IsValueFlag(t)
    requires Scanned(InsertToken(args, j, t), j)
    ensures j < |args| ==> !Skipped(args, j)
    ensures !Skipped(InsertToken(args, j, t), j + 1)
  {
    var a := InsertToken(args, j, t);
    if j > 1 {
      InsertTokenSkipBelow(args, j, t, j - 1);
      assert Registers(a, j - 1) == IsValueFlag(args[j - 1]);
    }
    InsertTokenRegisters(args, j, t);
  }

  /** Above the inserted token, the longer list skips as the shorter one one place earlier. */
  lemma InsertTokenSkipAbove(args: seq<string>, j: nat, t: string, k: nat)
    requires 1 <= j <= k
    requires j <= |args|
    requires t != "" && !IsValueFlag(t)
    requires Scanned(InsertToken(args, j, t), j)
    ensures Skipped(InsertToken(args, j, t), k + 1) == Skipped(args, k)
  {
    InsertTokenSkipAt(args, j, t);
    InsertTokenRegisters(args, j, t);
    SkippedAgreeShifted(InsertToken(args, j, t), args, j, k);
  }

  /** Up to and including the inserted token, the last value of a flag is unchanged. */
  lemma InsertTokenValueBelow(args: seq<string>, j: nat, t: string, flag: string)
    requires 1 <= j <= |args|
    requires t != "" && !IsValueFlag(t)
    requires Scanned(InsertToken(args, j, t), j)
    ensures LastValueBelow(InsertToken(args, j, t), flag, j + 1) == LastValueBelow(args, flag, j)
  {
    var a := InsertToken(args, j, t);
    InsertTokenRegisters(args, j, t);
    assert !RegisteredAt(a, flag, j);
    if j > 1 {
      forall i: nat | 1 <= i < j - 1
        ensures RegisteredAt(a, flag, i) == RegisteredAt(args, flag, i)
      {
        InsertTokenSkipBelow(args, j, t, i);
      }
      LastValueAgree(a, args, flag, 1, j - 1);
      InsertTokenSkipBelow(args, j, t, j - 1);
      assert !RegisteredAt(a, flag, j - 1);
      assert !RegisteredAt(args, flag, j - 1);
    }
  }

  lemma InsertTokenValue(args: seq<string>, j: nat, t: string, flag: string)
    requires 1 <= j <= |args|
    requires t != "" && !IsValueFlag(t)
    requires Scanned(InsertToken(args, j, t), j)
    ensures FlagValue(InsertToken(args, j, t), flag) == FlagValue(args, flag)
  {
    var a := InsertToken(args, j, t);
    InsertTokenValueBelow(args, j, t, flag);
    if j < |args| {
      forall i: nat | j <= i < |args|
        ensures RegisteredAt(a, flag, i + 1) == RegisteredAt(args, flag, i)
      {
        InsertTokenSkipAbove(args, j, t, i);
        InsertTokenRegisters(args, j, t);
      }
      LastValueAgreeShifted(a, args, flag, j, |args|);
    }
  }

  /** An unrecognised, non-empty token the loop scans changes nothing, wherever it stands. */
  lemma UnknownTokenIgnored(args: seq<string>, j: nat, t: string)
    requires 1 <= j <= |args|
    requires t != "" && !IsValueFlag(t)
    requires Scanned(args[..j] + [t] + args[j..], j)
    ensures Resolve(args[..j] + [t] + args[j..]) == Resolve(args)
  {
    InsertTokenValue(args, j, t, ContextFlag);
    InsertTokenValue(args, j, t, ApplyFlag);
    InsertTokenValue(args, j, t, OutputFlag);
  }

  // ----- Small cases from the edge-case list -----

  /** A flag-looking token right after a flag is that flag's value and is never scanned itself. */
  lemma FlagTakenAsValue(path: string, x: string)
    ensures Resolve([path, ContextFlag, ApplyFlag, x])
         == Resolved(Request(path, Some(ApplyFlag), None, None))
  {
    var args := [path, ContextFlag, ApplyFlag, x];
    assert RegisteredAt(args, ContextFlag, 1);
    assert Skipped(args, 2);
    assert !Registers(args, 3);
    forall flag, k: nat | 1 < k ensures !RegisteredAt(args, flag, k) {
    }
    LastRegisteredWins(args, ContextFlag, 1);
    UnsetIffNeverRegistered(args, ApplyFlag);
    UnsetIffNeverRegistered(args, OutputFlag);
  }

  /** An empty value does not register its flag and is then scanned as an ordinary token. */
  lemma EmptyValueScannedAsToken(path: string, x: string)
    requires x != ""
    ensures Resolve([path, ContextFlag, "", ApplyFlag, x])
         == Resolved(Request(path, None, Some(x), None))
  {
    var args := [path, ContextFlag, "", ApplyFlag, x];
    assert !Registers(args, 1) && !Registers(args, 2);
    assert Scanned(args, 3) && RegisteredAt(args, ApplyFlag, 3);
    assert Skipped(args, 4);
    forall flag, k: nat | k != 3 ensures !RegisteredAt(args, flag, k) {
    }
    LastRegisteredWins(args, ApplyFlag, 3);
    UnsetIffNeverRegistered(args, ContextFlag);
    UnsetIffNeverRegistered(args, OutputFlag);
  }

  /** Two registered flag-value pairs, in one order and in the other, between the same neighbours. */
  function PairsInOrder(pre: seq<string>, f: string, x: string, g: string, y: string, post: seq<string>)
    : (a: seq<string>)
    ensures |a| == |pre| + 4 + |post|
    ensures forall i: nat :: i < |pre| ==> a[i] == pre[i]
    ensures a[|pre|] == f && a[|pre| + 1] == x && a[|pre| + 2] == g && a[|pre| + 3] == y
    ensures forall i: nat :: i < |post| ==> a[|pre| + 4 + i] == post[i]
  {
    pre + [f, x, g, y] + post
  }

  lemma PairsTailAlike(pre: seq<string>, f: string, x: string, g: string, y: string, post: seq<string>)
    ensures var a, b := PairsInOrder(pre, f, x, g, y, post), PairsInOrder(pre, g, y, f, x, post);
      forall i: nat :: |pre| + 4 <= i < |a| ==> a[i] == b[i]
  {
    var a, b := PairsInOrder(pre, f, x, g, y, post), PairsInOrder(pre, g, y, f, x, post);
    forall i: nat | |pre| + 4 <= i < |a| ensures a[i] == b[i] {
      assert a[|pre| + 4 + (i - |pre| - 4)] == b[|pre| + 4 + (i - |pre| - 4)];
    }
  }

  lemma PairsRegisterAlike(pre: seq<string>, f: string, x: string, g: string, y: string, post: seq<string>)
    requires IsValueFlag(f) && IsValueFlag(g) && x != "" && y != ""
    ensures var a, b := PairsInOrder(pre, f, x, g, y, post), PairsInOrder(pre, g, y, f, x, post);
      && (forall i: nat :: i < |pre| ==> Registers(a, i) == Registers(b, i))
      && Registers(a, |pre|) && Registers(b, |pre|)
      && Registers(a, |pre| + 2) && Registers(b, |pre| + 2)
  {
  }

  /** Before the pairs, swapping them changes no skip. */
  lemma PairsSkipBelow(pre: seq<string>, f: string, x: string, g: string, y: string, post: seq<string>, k: nat)
    requires IsValueFlag(f) && IsValueFlag(g) && x != "" && y != ""
    requires k <= |pre|
    ensures Skipped(PairsInOrder(pre, f, x, g, y, post), k) == Skipped(PairsInOrder(pre, g, y, f, x, post), k)
  {
    if k >= 1 {
      PairsRegisterAlike(pre, f, x, g, y, post);
      SkippedAgree(PairsInOrder(pre, f, x, g, y, post), PairsInOrder(pre, g, y, f, x, post), 1, k);
    }
  }

  /** Inside the pairs each flag is scanned and each value skipped, in both orders. */
  lemma PairsSkipInside(pre: seq<string>, f: string, x: string, g: string, y: string, post: seq<string>)
    requires |pre| >= 1 && IsValueFlag(f) && IsValueFlag(g) && x != "" && y != ""
    requires Scanned(PairsInOrder(pre, f, x, g, y, post), |pre|)
    ensures var n, a, b := |pre|, PairsInOrder(pre, f, x, g, y, post), PairsInOrder(pre, g, y, f, x, post);
      && !Skipped(a, n) && Skipped(a, n + 1) && !Skipped(a, n + 2) && Skipped(a, n + 3) && !Skipped(a, n + 4)
      && !Skipped(b, n) && Skipped(b, n + 1) && !Skipped(b, n + 2) && Skipped(b, n + 3) && !Skipped(b, n + 4)
  {
    PairsSkipBelow(pre, f, x, g, y, post, |pre|);
    PairsRegisterAlike(pre, f, x, g, y, post);
  }

  /** Up to the end of the pairs, swapping them leaves every flag's last value alike. */
  lemma PairsValueThroughPairs(pre: seq<string>, f: string, x: string, g: string, y: string, post: seq<string>,
                               flag: string)
    requires |pre| >= 1 && IsValueFlag(f) && IsValueFlag(g) && f != g && x != "" && y != ""
    requires Scanned(PairsInOrder(pre, f, x, g, y, post), |pre|)
    ensures var n := |pre|;
      LastValueBelow(PairsInOrder(pre, f, x, g, y, post), flag, n + 4)
        == LastValueBelow(PairsInOrder(pre, g, y, f, x, post), flag, n + 4)
  {
    var n := |pre|;
    var a, b := PairsInOrder(pre, f, x, g, y, post), PairsInOrder(pre, g, y, f, x, post);
    PairsRegisterAlike(pre, f, x, g, y, post);
    PairsSkipInside(pre, f, x, g, y, post);
    if n > 1 {
      forall i: nat | 1 <= i < n ensures RegisteredAt(a, flag, i) == RegisteredAt(b, flag, i) {
        PairsSkipBelow(pre, f, x, g, y, post, i);
      }
      PairsSkipBelow(pre, f, x, g, y, post, n - 1);
      assert !RegisteredAt(a, flag, n - 1);
      LastValueAgree(a, b, flag, 1, n);
    }
    assert !RegisteredAt(a, flag, n + 3) && !RegisteredAt(b, flag, n + 3);
    assert !RegisteredAt(a, flag, n + 1) && !RegisteredAt(b, flag, n + 1);
    assert LastValueBelow(a, flag, n + 4) == LastValueBelow(a, flag, n + 3);
    assert LastValueBelow(b, flag, n + 4) == LastValueBelow(b, flag, n + 3);
    assert LastValueBelow(a, flag, n + 2) == LastValueBelow(a, flag, n + 1);
    assert LastValueBelow(b, flag, n + 2) == LastValueBelow(b, flag, n + 1);
    if flag == f {
      assert LastValueBelow(a, flag, n + 3) == LastValueBelow(a, flag, n + 2);
      assert LastValueBelow(a, flag, n + 1) == Some(x);
      assert LastValueBelow(b, flag, n + 3) == Some(x);
    } else if flag == g {
      assert LastValueBelow(a, flag, n + 3) == Some(y);
      assert LastValueBelow(b, flag, n + 3) == LastValueBelow(b, flag, n + 2);
      assert LastValueBelow(b, flag, n + 1) == Some(y);
    } else {
      assert LastValueBelow(a, flag, n + 3) == LastValueBelow(a, flag, n + 2);
      assert LastValueBelow(b, flag, n + 3) == LastValueBelow(b, flag, n + 2);
      assert LastValueBelow(a, flag, n + 1) == LastValueBelow(a, flag, n);
      assert LastValueBelow(b, flag, n + 1) == LastValueBelow(b, flag, n);
    }
  }

  /**
   * Two lists that agree from `m` on, where both are scanned and both hold the same
   * last value of `flag` so far, end with the same value of `flag`.
   */
  lemma SameTailSameValue(a: seq<string>, b: seq<string>, flag: string, m: nat)
    requires 1 <= m <= |a| == |b|
    requires forall i: nat :: m <= i < |a| ==> a[i] == b[i]
    requires !Skipped(a, m) && !Skipped(b, m)
    requires LastValueBelow(a, flag, m) == LastValueBelow(b, flag, m)
    ensures FlagValue(a, flag) == FlagValue(b, flag)
  {
    forall i: nat | m <= i < |a| ensures RegisteredAt(a, flag, i) == RegisteredAt(b, flag, i) {
      assert forall k: nat :: m <= k < i ==> Registers(a, k) == Registers(b, k);
      SkippedAgree(a, b, m, i);
    }
    LastValueAgree(a, b, flag, m, |a|);
  }

  lemma PairsValueAlike(pre: seq<string>, f: string, x: string, g: string, y: string, post: seq<string>,
                        flag: string)
    requires |pre| >= 1 && IsValueFlag(f) && IsValueFlag(g) && f != g && x != "" && y != ""
    requires Scanned(PairsInOrder(pre, f, x, g, y, post), |pre|)
    ensures FlagValue(PairsInOrder(pre, f, x, g, y, post), flag)
         == FlagValue(PairsInOrder(pre, g, y, f, x, post), flag)
  {
    PairsValueThroughPairs(pre, f, x, g, y, post, flag);
    PairsSkipInside(pre, f, x, g, y, post);
    PairsTailAlike(pre, f, x, g, y, post);
    SameTailSameValue(PairsInOrder(pre, f, x, g, y, post), PairsInOrder(pre, g, y, f, x, post), flag, |pre| + 4);
  }

  /**
   * Two different flags, each registering with its value, give the same request in
   * either order, whatever comes before and after them.
   */
  lemma FlagOrderIrrelevant(pre: seq<string>, f: string, x: string, g: string, y: string, post: seq<string>)
    requires |pre| >= 1
    requires IsValueFlag(f) && IsValueFlag(g) && f != g
    requires x != "" && y != ""
    requires Scanned(pre + [f, x, g, y] + post, |pre|)
    ensures Resolve(pre + [f, x, g, y] + post) == Resolve(pre + [g, y, f, x] + post)
  {
    PairsValueAlike(pre, f, x, g, y, post, ContextFlag);
    PairsValueAlike(pre, f, x, g, y, post, ApplyFlag);
    PairsValueAlike(pre, f, x, g, y, post, OutputFlag);
  }
}
