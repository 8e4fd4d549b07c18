# Rule S1763 of the PHP analyzer: code following a jump statement

This project models the check `CodeFollowingJumpStatementCheck` of the SonarQube PHP
analyzer. The check is given the ordered statement list of one container: a block, a
script, or a `case`/`default` clause. It reports every jump statement (`break`, `return`,
`continue`, `throw`) that is followed by live code in the same list.

The model lives in `code_following_jump.dfy` and has two modules:

- `PhpTree` holds the node `Kind`s that the rule names. All other kinds are the
  catch-all `Other`. A `Statement` is a kind plus the text of its first token.
- `CodeFollowingJumpStatementCheck` holds the rule:
  - the constants `Key` and `MessageFormat`;
  - the `JumpKinds` and `NoActionKinds` tables;
  - the tail policy `hasActionStatement`, as the predicate `HasActionStatement`. Its
    `for` loop with early returns is the recursive predicate `ScanForAction`;
  - the loop of `visitNode`, as the method `VisitNode`. It returns the issues in
    order instead of handing each one to the analysis context.

`VisitNode` is proved equal to the function `Analyze`. The lemmas below are proved about
`Analyze` and the tail policy:

- what is reported, and exactly when;
- the order of the issues;
- the bound on how many issues there are;
- the exceptions: labels, no-action statements, and `break` inside a clause.

## Model

| member | source | states |
|---|---|---|
| `CodeFollowingJumpStatementCheck.VisitNode` | php-checks/src/main/java/org/sonar/php/checks/CodeFollowingJumpStatementCheck.java:55-68 | The loop over indices `0 .. size-2` returns exactly `Analyze`: the issue for each reportable jump, in index order. `AnalyzeSpec` states what that list is. |
| `CodeFollowingJumpStatementCheck.AnalyzeSpec` | php-checks/src/main/java/org/sonar/php/checks/CodeFollowingJumpStatementCheck.java:59-65 | For every container, the issues are sound and complete with respect to `Reportable`. The last statement is never reported. Each issue's message is `MessageFormat` applied to the flagged statement's first token. At most one issue is raised per index, in increasing index order. There are at most as many issues as jumps. |
| `CodeFollowingJumpStatementCheck.IssuesBeforeSpec` | php-checks/src/main/java/org/sonar/php/checks/CodeFollowingJumpStatementCheck.java:59-66 | After the indices below `n` have been examined, the same facts hold for those indices. This is the loop invariant of `visitNode`, proved by induction on `n`. |
| `CodeFollowingJumpStatementCheck.ShortListYieldsNothing` | php-checks/src/main/java/org/sonar/php/checks/CodeFollowingJumpStatementCheck.java:59 | A list of zero or one statements yields no issue, in any container. |
| `CodeFollowingJumpStatementCheck.ScanForActionIff` | php-checks/src/main/java/org/sonar/php/checks/CodeFollowingJumpStatementCheck.java:74-81 | The scan loop returns "action" if and only if some statement outside the no-action kinds exists and the first such statement is not a `LABEL`. Both directions are proved. |
| `CodeFollowingJumpStatementCheck.HasActionStatementIff` | php-checks/src/main/java/org/sonar/php/checks/CodeFollowingJumpStatementCheck.java:70-82 | `hasActionStatement` holds if and only if two things are true. First, the `case`/`default` clause exception does not apply: that exception is a tail starting with `break`. Second, the first statement outside the no-action kinds exists and is not a label. |
| `CodeFollowingJumpStatementCheck.ReportableIff` | php-checks/src/main/java/org/sonar/php/checks/CodeFollowingJumpStatementCheck.java:59-82 | The statement at `i` is reported if and only if all of these hold: it is not last; it is a jump; the clause/`break` exception does not apply; and a later statement `j` exists that is not a label, is outside the no-action kinds, and has only no-action kinds between `i` and `j`. That later statement may itself be a jump. |
| `CodeFollowingJumpStatementCheck.LabelStopsScan` | php-checks/src/main/java/org/sonar/php/checks/CodeFollowingJumpStatementCheck.java:74-76 | If the scan reaches a `LABEL` before any statement outside the no-action kinds, it finds no action, whatever follows the label. |
| `CodeFollowingJumpStatementCheck.NoActionTailIsDead` | php-checks/src/main/java/org/sonar/php/checks/CodeFollowingJumpStatementCheck.java:74-81 | If every statement of a tail is of a no-action kind, the scan finds no action. |
| `CodeFollowingJumpStatementCheck.LabelSuppressesIssue` | php-checks/src/main/java/org/sonar/php/checks/CodeFollowingJumpStatementCheck.java:62-76 | If a label follows the statement at `i` with only no-action kinds in between, that statement is not reported. |
| `CodeFollowingJumpStatementCheck.NoActionSuffixSuppressesIssue` | php-checks/src/main/java/org/sonar/php/checks/CodeFollowingJumpStatementCheck.java:43-53 | If every statement after index `i` is an empty statement, a class, function, interface or trait declaration, a namespace, a `use`, a constant declaration or inline HTML, then the statement at `i` is not reported. |
| `CodeFollowingJumpStatementCheck.BreakAfterJump` | php-checks/src/main/java/org/sonar/php/checks/CodeFollowingJumpStatementCheck.java:70-78 | Take a jump directly followed by `break`. It is reported if and only if the container is neither a `CASE_CLAUSE` nor a `DEFAULT_CLAUSE`, whatever follows the `break`. |
| `CodeFollowingJumpStatementCheck.JumpAfterJump` | php-checks/src/main/java/org/sonar/php/checks/CodeFollowingJumpStatementCheck.java:74-78 | Take a jump directly followed by another jump, where the clause/`break` exception does not apply. It is reported: for example `return; break;` outside a clause. |
| `CodeFollowingJumpStatementCheck.ReportableIsLocal` | php-checks/src/main/java/org/sonar/php/checks/CodeFollowingJumpStatementCheck.java:62 | The decision for an index depends only on the statements from that index on and on the parent kind. Two lists with equal suffixes get equal decisions, whatever precedes those suffixes. |
| `CodeFollowingJumpStatementCheck.ReturnThenAssignment` | php-checks/src/main/java/org/sonar/php/checks/CodeFollowingJumpStatementCheck.java:59-81 | `return; $a = 1;` in a block yields exactly one issue, on the `return`, with message argument `return`. |
| `CodeFollowingJumpStatementCheck.ReturnThenBreakInCase` | php-checks/src/main/java/org/sonar/php/checks/CodeFollowingJumpStatementCheck.java:70-73 | `return; break;` in a `case` clause yields no issue. |
| `CodeFollowingJumpStatementCheck.TwoIndependentJumps` | php-checks/src/main/java/org/sonar/php/checks/CodeFollowingJumpStatementCheck.java:59-66 | `break; $a = 1; continue; $b = 2;` yields two issues in any container: one for the `break`, then one for the `continue`. |

## Left out

- How a container's statement list is extracted (`getStatements` of `AbstractStatementsCheck`): it is not part of this model. The list and the parent kind are inputs to `VisitNode`.
- The host that visits every container of a file is not modelled. Each container is analysed on its own.
- Issue reporting through the analysis context, and the first-token location, are foreign APIs. An issue is a value made of three parts: the rule key, the index of the flagged statement in its container, and the message.
- Message rendering by `String.format` is not modelled. A message is the pair (format, first-token text).
- The `@Rule` registration annotation is not modelled.
- Running the rule twice on the same input gives the same result because `Analyze` is a function. No separate lemma states this.
- The phpDepend summary report parser (`sonar-php-plugin/.../PhpDependSummaryReportParser.java`) is not modelled. It is file and XML input plus calls into the host's measure API.
