/** The part of the PHP syntax tree that rule S1763 consumes: the kinds of
    node it names and the statements of one container. */
module PhpTree {

  /** The node kinds the rule names; every other kind of the grammar is `Other`. */
  datatype Kind =
    | BreakStatement | ReturnStatement | ContinueStatement | ThrowStatement
    | EmptyStatement | ClassDeclaration | FunctionDeclaration | InterfaceDeclaration
    | TraitDeclaration | NamespaceStatement | UseStatement | ConstantDeclaration
    | InlineHtml | Label | CaseClause | DefaultClause | Other

  /** A statement node: its kind and the text of its first token. */
  datatype Statement = Statement(kind: Kind, firstToken: string)
}

/** Rule S1763: report every jump statement that is followed by live code in
    the statement list of the same container (a block, a script, or a
    `case`/`default` clause). */
module CodeFollowingJumpStatementCheck {
  import opened PhpTree

  const Key: string := "S1763"
  const MessageFormat: string := "Remove the code after this \"%s\"."

  /** The statements that can be reported. */
  const JumpKinds: set<Kind> := {BreakStatement, ReturnStatement, ContinueStatement, ThrowStatement}

  /** The statements with no action at the point where they occur; the scan skips them. */
  const NoActionKinds: set<Kind> :=
    {EmptyStatement, ClassDeclaration, FunctionDeclaration, InterfaceDeclaration,
     TraitDeclaration, NamespaceStatement, UseStatement, ConstantDeclaration, InlineHtml}

  /** A message is kept as its format and the one argument it is formatted with. */
  datatype Message = Message(format: string, argument: string)

  /** An issue of the rule `rule`, located at the first token of the
      statement at index `statement` of the container. */
  datatype Issue = Issue(rule: string, statement: nat, message: Message)

  predicate IsSwitchClause(parent: Kind) {
    parent == CaseClause || parent == DefaultClause
  }

  /** The loop of hasActionStatement: a label ends the scan with "no action",
      a statement outside the no-action kinds ends it with "action", the
      no-action kinds are skipped. */
  predicate ScanForAction(statements: seq<Statement>) {
    if statements == [] then false
    else if statements[0].kind == Label then false
    else if statements[0].kind !in NoActionKinds then true
    else ScanForAction(statements[1..])
  }

  /** hasActionStatement: whether the statements after a jump hold live code.
      Inside a `case` or `default` clause a tail that starts with `break`
      never does. The source reads the first statement only in a clause, so
      an empty tail is allowed elsewhere. */
  predicate HasActionStatement(statements: seq<Statement>, parent: Kind)
    requires statements != [] || !IsSwitchClause(parent)
  {
    if IsSwitchClause(parent) && statements[0].kind == BreakStatement then false
    else ScanForAction(statements)
  }

  /** The statement at index i is reported: it is a jump, it is not the last
      statement, and the statements after it hold live code. */
  predicate Reportable(statements: seq<Statement>, parent: Kind, i: nat) {
    i + 1 < |statements| &&
    statements[i].kind in JumpKinds &&
    HasActionStatement(statements[i + 1..], parent)
  }

  /** The issue raised for the statement at index i. */
  function IssueAt(statements: seq<Statement>, i: nat): Issue
    requires i < |statements|
  {
    Issue(Key, i, Message(MessageFormat, statements[i].firstToken))
  }

  /** The number of indices visitNode examines: size - 1, and none when the list is empty. */
  function LoopBound(statements: seq<Statement>): nat {
    if |statements| == 0 then 0 else |statements| - 1
  }

  /** The issues raised while examining the indices below n, in index order. */
  function IssuesBefore(statements: seq<Statement>, parent: Kind, n: nat): seq<Issue>
    requires n <= |statements|
  {
    if n == 0 then []
    else
      IssuesBefore(statements, parent, n - 1) +
      (if Reportable(statements, parent, n - 1) then [IssueAt(statements, n - 1)] else [])
  }

  /** All issues the rule raises for one container. */
  function Analyze(statements: seq<Statement>, parent: Kind): seq<Issue> {
    IssuesBefore(statements, parent, LoopBound(statements))
  }

  /** visitNode: examine every index but the last and raise an issue for
      each reportable jump, in source order. */
  method VisitNode(statements: seq<Statement>, parent: Kind) returns (issues: seq<Issue>)
    ensures issues == Analyze(statements, parent)
  {
    issues := [];
    var i := 0;
    while i < |statements| - 1
      invariant 0 <= i <= LoopBound(statements)
      invariant issues == IssuesBefore(statements, parent, i)
    {
      var current := statements[i];
      if current.kind in JumpKinds && HasActionStatement(statements[i + 1..], parent) {
        issues := issues + [Issue(Key, i, Message(MessageFormat, current.firstToken))];
      }
      i := i + 1;
    }
  }

  // ---------------------------------------------------------------------
  // The tail policy

  /** Index j holds the first statement of `statements` outside the no-action kinds. */
  predicate FirstEffectiveAt(statements: seq<Statement>, j: nat) {
    j < |statements| &&
    statements[j].kind !in NoActionKinds &&
    forall k :: 0 <= k < j ==> statements[k].kind in NoActionKinds
  }

  /** The scan finds an action exactly when the first statement outside the
      no-action kinds exists and is not a label. */
  lemma {:induction false} ScanForActionIff(statements: seq<Statement>)
    ensures ScanForAction(statements) <==>
      exists j: nat :: FirstEffectiveAt(statements, j) && statements[j].kind != Label
  {
    if statements == [] {
    } else if statements[0].kind !in NoActionKinds {
      assert FirstEffectiveAt(statements, 0);
    } else {
      var rest := statements[1..];
      ScanForActionIff(rest);
      if ScanForAction(statements) {
        var j: nat :| FirstEffectiveAt(rest, j) && rest[j].kind != Label;
        assert FirstEffectiveAt(statements, j + 1) by {
          forall k | 0 <= k < j + 1 ensures statements[k].kind in NoActionKinds {
            if k > 0 { assert statements[k] == rest[k - 1]; }
          }
        }
      } else {
        forall j: nat | FirstEffectiveAt(statements, j) ensures statements[j].kind == Label {
          assert j > 0;
          assert FirstEffectiveAt(rest, j - 1) by {
            forall k | 0 <= k < j - 1 ensures rest[k].kind in NoActionKinds {
              assert rest[k] == statements[k + 1];
            }
          }
        }
      }
    }
  }

  /** A label reached before any statement outside the no-action kinds stops
      the scan with "no action", whatever follows the label. */
  lemma {:induction false} LabelStopsScan(statements: seq<Statement>, j: nat)
    requires j < |statements| && statements[j].kind == Label
    requires forall k :: 0 <= k < j ==> statements[k].kind in NoActionKinds
    ensures !ScanForAction(statements)
  {
    if j > 0 {
      LabelStopsScan(statements[1..], j - 1);
    }
  }

  /** A tail made only of no-action kinds holds no action. */
  lemma {:induction false} NoActionTailIsDead(statements: seq<Statement>)
    requires forall k :: 0 <= k < |statements| ==> statements[k].kind in NoActionKinds
    ensures !ScanForAction(statements)
  {
    if statements != [] {
      NoActionTailIsDead(statements[1..]);
    }
  }

  /** hasActionStatement holds exactly when the clause/break exception does
      not apply and the first statement outside the no-action kinds is not a label. */
  lemma HasActionStatementIff(statements: seq<Statement>, parent: Kind)
    requires statements != []
    ensures HasActionStatement(statements, parent) <==>
      !(IsSwitchClause(parent) && statements[0].kind == BreakStatement) &&
      exists j: nat :: FirstEffectiveAt(statements, j) && statements[j].kind != Label
  {
    ScanForActionIff(statements);
  }

  /** A jump at index i is reported exactly when it is not last, the
      clause/break exception does not apply, and the first later statement
      outside the no-action kinds (which may itself be a jump) is not a label. */
  lemma ReportableIff(statements: seq<Statement>, parent: Kind, i: nat)
    ensures Reportable(statements, parent, i) <==>
      i + 1 < |statements| &&
      statements[i].kind in JumpKinds &&
      !(IsSwitchClause(parent) && statements[i + 1].kind == BreakStatement) &&
      exists j: nat :: i < j < |statements| && statements[j].kind !in NoActionKinds &&
        statements[j].kind != Label &&
        (forall k :: i < k < j ==> statements[k].kind in NoActionKinds)
  {
    if i + 1 < |statements| {
      var tail := statements[i + 1..];
      HasActionStatementIff(tail, parent);
      if exists j: nat :: FirstEffectiveAt(tail, j) && tail[j].kind != Label {
        var j: nat :| FirstEffectiveAt(tail, j) && tail[j].kind != Label;
        assert tail[j] == statements[i + 1 + j];
        forall k | i < k < i + 1 + j ensures statements[k].kind in NoActionKinds {
          assert statements[k] == tail[k - i - 1];
        }
      }
      if exists j: nat :: i < j < |statements| && statements[j].kind !in NoActionKinds &&
          statements[j].kind != Label &&
          (forall k :: i < k < j ==> statements[k].kind in NoActionKinds) {
        var j: nat :| i < j < |statements| && statements[j].kind !in NoActionKinds &&
          statements[j].kind != Label &&
          (forall k :: i < k < j ==> statements[k].kind in NoActionKinds);
        forall k | 0 <= k < j - i - 1 ensures tail[k].kind in NoActionKinds {
          assert tail[k] == statements[i + 1 + k];
        }
        assert FirstEffectiveAt(tail, j - i - 1);
      }
    }
  }

  /** In a `case` or `default` clause a jump directly followed by `break` is
      never reported, whatever follows the `break`; in any other container it is. */
  lemma BreakAfterJump(statements: seq<Statement>, parent: Kind, i: nat)
    requires i + 1 < |statements|
    requires statements[i].kind in JumpKinds && statements[i + 1].kind == BreakStatement
    ensures Reportable(statements, parent, i) <==> !IsSwitchClause(parent)
  {
  }

  /** Outside the clause/break exception, a jump directly followed by another
      jump is reported: the second jump is live code. */
  lemma JumpAfterJump(statements: seq<Statement>, parent: Kind, i: nat)
    requires i + 1 < |statements|
    requires statements[i].kind in JumpKinds && statements[i + 1].kind in JumpKinds
    requires !(IsSwitchClause(parent) && statements[i + 1].kind == BreakStatement)
    ensures Reportable(statements, parent, i)
  {
  }

  /** A label after a jump, reached before any statement outside the
      no-action kinds, keeps the jump from being reported. */
  lemma LabelSuppressesIssue(statements: seq<Statement>, parent: Kind, i: nat, j: nat)
    requires i < j < |statements| && statements[j].kind == Label
    requires forall k :: i < k < j ==> statements[k].kind in NoActionKinds
    ensures !Reportable(statements, parent, i)
  {
    var tail := statements[i + 1..];
    forall k | 0 <= k < j - i - 1 ensures tail[k].kind in NoActionKinds {
      assert tail[k] == statements[i + 1 + k];
    }
    LabelStopsScan(tail, j - i - 1);
  }

  /** A jump followed only by no-action kinds is not reported. */
  lemma NoActionSuffixSuppressesIssue(statements: seq<Statement>, parent: Kind, i: nat)
    requires forall k :: i < k < |statements| ==> statements[k].kind in NoActionKinds
    ensures !Reportable(statements, parent, i)
  {
    if i + 1 < |statements| {
      var tail := statements[i + 1..];
      forall k | 0 <= k < |tail| ensures tail[k].kind in NoActionKinds {
        assert tail[k] == statements[i + 1 + k];
      }
      NoActionTailIsDead(tail);
    }
  }

  /** The decision for index i depends only on the statements from i on and
      on the parent kind, never on earlier statements. */
  lemma ReportableIsLocal(s: seq<Statement>, t: seq<Statement>, parent: Kind, i: nat, j: nat)
    requires i <= |s| && j <= |t| && s[i..] == t[j..]
    ensures Reportable(s, parent, i) == Reportable(t, parent, j)
  {
    if i + 1 < |s| {
      assert s[i] == s[i..][0] == t[j..][0] == t[j];
      assert s[i + 1..] == s[i..][1..] == t[j..][1..] == t[j + 1..];
    }
  }

  // ---------------------------------------------------------------------
  // The issues of one container

  /** Issue r is the one raised for a reportable statement. */
  predicate Describes(statements: seq<Statement>, parent: Kind, r: Issue) {
    r.statement < |statements| &&
    Reportable(statements, parent, r.statement) &&
    r == IssueAt(statements, r.statement)
  }

  /** Issues come in strictly increasing statement order, so at most one per statement. */
  predicate Increasing(issues: seq<Issue>) {
    forall a, b :: 0 <= a < b < |issues| ==> issues[a].statement < issues[b].statement
  }

  /** The number of jump statements in a list. */
  function JumpCount(statements: seq<Statement>): nat {
    if statements == [] then 0
    else
      JumpCount(statements[..|statements| - 1]) +
      (if statements[|statements| - 1].kind in JumpKinds then 1 else 0)
  }

  lemma {:induction false} JumpCountPrefix(statements: seq<Statement>, n: nat)
    requires n <= |statements|
    ensures JumpCount(statements[..n]) <= JumpCount(statements)
    decreases |statements| - n
  {
    if n < |statements| {
      JumpCountPrefix(statements, n + 1);
      assert statements[..n + 1][..n] == statements[..n];
    } else {
      assert statements[..n] == statements;
    }
  }

  /** Every issue raised below n describes a reportable statement below n;
      every reportable statement below n has its issue; the issues are in
      increasing order; there are no more of them than jumps below n. */
  lemma {:induction false} IssuesBeforeSpec(statements: seq<Statement>, parent: Kind, n: nat)
    requires n <= |statements|
    ensures forall r :: r in IssuesBefore(statements, parent, n) ==>
      r.statement < n && Describes(statements, parent, r)
    ensures forall i :: 0 <= i < n && Reportable(statements, parent, i) ==>
      IssueAt(statements, i) in IssuesBefore(statements, parent, n)
    ensures Increasing(IssuesBefore(statements, parent, n))
    ensures |IssuesBefore(statements, parent, n)| <= JumpCount(statements[..n])
  {
    if n > 0 {
      IssuesBeforeSpec(statements, parent, n - 1);
      var before := IssuesBefore(statements, parent, n - 1);
      var issues := IssuesBefore(statements, parent, n);
      assert statements[..n][..n - 1] == statements[..n - 1];
      assert statements[..n][n - 1] == statements[n - 1];
      if Reportable(statements, parent, n - 1) {
        assert issues == before + [IssueAt(statements, n - 1)];
        forall a, b | 0 <= a < b < |issues| ensures issues[a].statement < issues[b].statement {
          if b < |before| {
          } else {
            assert issues[a] in before;
          }
        }
      } else {
        assert issues == before;
      }
    }
  }

  /** What one container yields: only reportable statements, never the last
      one; each with the issue carrying the rule key and its first token;
      every reportable statement; in source order, one issue per statement
      at most; no more issues than jump statements. */
  lemma AnalyzeSpec(statements: seq<Statement>, parent: Kind)
    ensures forall r :: r in Analyze(statements, parent) ==>
      r.statement + 1 < |statements| && Describes(statements, parent, r)
    ensures forall r :: r in Analyze(statements, parent) ==>
      r.rule == Key && r.message == Message(MessageFormat, statements[r.statement].firstToken)
    ensures forall i :: 0 <= i < |statements| && Reportable(statements, parent, i) ==>
      IssueAt(statements, i) in Analyze(statements, parent)
    ensures Increasing(Analyze(statements, parent))
    ensures |Analyze(statements, parent)| <= JumpCount(statements)
  {
    var n := LoopBound(statements);
    IssuesBeforeSpec(statements, parent, n);
    JumpCountPrefix(statements, n);
  }

  /** A list of zero or one statements yields no issue, whatever the container. */
  lemma ShortListYieldsNothing(statements: seq<Statement>, parent: Kind)
    requires |statements| <= 1
    ensures Analyze(statements, parent) == []
  {
  }

  // ---------------------------------------------------------------------
  // Worked examples

  /** `return $x; $a = 1;` in a block: one issue, on the `return`. */
  lemma ReturnThenAssignment()
    ensures Analyze([Statement(ReturnStatement, "return"), Statement(Other, "$a")], Other) ==
      [Issue(Key, 0, Message(MessageFormat, "return"))]
  {
  }

  /** `return $x; break;` in a `case` clause: no issue. */
  lemma ReturnThenBreakInCase()
    ensures Analyze([Statement(ReturnStatement, "return"), Statement(BreakStatement, "break")], CaseClause) == []
  {
  }

  /** `break; $a = 1; continue; $b = 2;`: two issues, `break` then `continue`, in any container. */
  lemma TwoIndependentJumps(parent: Kind)
    ensures Analyze([Statement(BreakStatement, "break"), Statement(Other, "$a"),
                     Statement(ContinueStatement, "continue"), Statement(Other, "$b")], parent) ==
      [Issue(Key, 0, Message(MessageFormat, "break")), Issue(Key, 2, Message(MessageFormat, "continue"))]
  {
  }
}
