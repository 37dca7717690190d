/**
  The constraint table of a constrained index (`ContraintsDict`) and the
  builder that folds configuration lines into it (`parse_constraints`).
 */
module Constraints {
  import opened Wrappers
  import opened Packaging

  /** The line that switches on "hide every project not listed". */
  const WILDCARD: string := "*"

  /**
    `ContraintsDict`: requirements keyed by the parser's project name, and
    the `constrain_all` flag.
   */
  datatype ConstraintsDict = ConstraintsDict(entries: map<string, Requirement>, constrainAll: bool)

  const NO_CONSTRAINTS := ConstraintsDict(map[], false)

  /** `%r` of a line: the line between single quotes (Python's escaping is not modelled). */
  function Quoted(s: string): string {
    "'" + s + "'"
  }

  /** The message of the re-raised parse error: the parser's message, then the offending line. */
  function ParseErrorMessage(error: string, line: string): string {
    error + " for " + Quoted(line)
  }

  function DuplicateMessage(name: string): string {
    "Constraint for '" + name + "' already exists."
  }

  /** One pass of the loop of `parse_constraints`, on the table built so far. */
  function AddConstraint(lib: Library, table: ConstraintsDict, line: string): Result<ConstraintsDict, string> {
    if line == WILDCARD then Success(table.(constrainAll := true))
    else match lib.parseRequirement(line)
      case Failure(e) => Failure(ParseErrorMessage(e, line))
      case Success(req) =>
        if req.projectName in table.entries then Failure(DuplicateMessage(req.projectName))
        else Success(table.(entries := table.entries[req.projectName := req]))
  }

  /**
    `parse_constraints` as a function: the table after every line has been
    added in order, or the error of the first line that could not be added.
   */
  function ParseConstraints(lib: Library, lines: seq<string>): Result<ConstraintsDict, string>
    decreases |lines|
  {
    if lines == [] then Success(NO_CONSTRAINTS)
    else match ParseConstraints(lib, lines[..|lines| - 1])
      case Failure(e) => Failure(e)
      case Success(table) => AddConstraint(lib, table, lines[|lines| - 1])
  }

  /** `parse_constraints`: fills a table line by line and stops at the first error. */
  method BuildConstraints(lib: Library, lines: seq<string>) returns (result: Result<ConstraintsDict, string>)
    ensures result == ParseConstraints(lib, lines)
  {
    var table := NO_CONSTRAINTS;
    for i := 0 to |lines|
      invariant ParseConstraints(lib, lines[..i]) == Success(table)
    {
      assert lines[..i + 1][..i] == lines[..i];
      var constraint := lines[i];
      if constraint == WILDCARD {
        table := table.(constrainAll := true);
        continue;
      }
      var parsed := lib.parseRequirement(constraint);
      if parsed.Failure? {
        FailureIsFinal(lib, lines, i + 1);
        return Failure(ParseErrorMessage(parsed.error, constraint));
      }
      var req := parsed.value;
      if req.projectName in table.entries {
        FailureIsFinal(lib, lines, i + 1);
        return Failure(DuplicateMessage(req.projectName));
      }
      table := table.(entries := table.entries[req.projectName := req]);
    }
    assert lines[..|lines|] == lines;
    return Success(table);
  }

  /** Once a prefix of the lines fails, the lines that follow it do not matter. */
  lemma {:induction false} FailureIsFinal(lib: Library, lines: seq<string>, k: nat)
    requires k <= |lines|
    requires ParseConstraints(lib, lines[..k]).Failure?
    ensures ParseConstraints(lib, lines) == ParseConstraints(lib, lines[..k])
    decreases |lines|
  {
    if k < |lines| {
      var front := lines[..|lines| - 1];
      assert front[..k] == lines[..k];
      FailureIsFinal(lib, front, k);
    } else {
      assert lines[..k] == lines;
    }
  }

  // ----- What the table built from a list of lines is, stated line by line -----

  /** A line that names a project: not the wildcard, and accepted by the parser. */
  predicate Named(lib: Library, line: string) {
    line != WILDCARD && lib.parseRequirement(line).Success?
  }

  function NameOf(lib: Library, line: string): string
    requires Named(lib, line)
  {
    lib.parseRequirement(line).value.projectName
  }

  /** The project names the lines name. */
  function Names(lib: Library, lines: seq<string>): set<string> {
    set line | line in lines && Named(lib, line) :: NameOf(lib, line)
  }

  /**
    `line`, coming after `before`, is one `parse_constraints` refuses: the
    parser rejects it, or it names a project an earlier line already named.
   */
  predicate Refused(lib: Library, before: seq<string>, line: string) {
    line != WILDCARD && (!Named(lib, line) || NameOf(lib, line) in Names(lib, before))
  }

  /** The message `parse_constraints` raises for a refused line. */
  function RefusalMessage(lib: Library, line: string): string {
    match lib.parseRequirement(line)
    case Failure(e) => ParseErrorMessage(e, line)
    case Success(req) => DuplicateMessage(req.projectName)
  }

  /** No line is refused. */
  predicate Acceptable(lib: Library, lines: seq<string>) {
    forall i :: 0 <= i < |lines| ==> !Refused(lib, lines[..i], lines[i])
  }

  /**
    The table a successful build returns: `constrain_all` is set exactly when
    the wildcard is one of the lines, the keys are the names the other lines
    name, each key holds the requirement of the line that names it, and there
    is one entry per line other than the wildcard.
   */
  predicate Describes(lib: Library, lines: seq<string>, table: ConstraintsDict) {
    && table.constrainAll == (WILDCARD in lines)
    && table.entries.Keys == Names(lib, lines)
    && (forall line :: line in lines && Named(lib, line) ==>
          table.entries[NameOf(lib, line)] == lib.parseRequirement(line).value)
    && |table.entries| == |lines| - multiset(lines)[WILDCARD]
  }

  lemma NamesSnoc(lib: Library, lines: seq<string>, line: string)
    ensures Names(lib, lines + [line]) ==
            Names(lib, lines) + (if Named(lib, line) then {NameOf(lib, line)} else {})
  {
    var all := lines + [line];
    forall name | name in Names(lib, all)
      ensures name in Names(lib, lines) + (if Named(lib, line) then {NameOf(lib, line)} else {})
    {
      var l :| l in all && Named(lib, l) && NameOf(lib, l) == name;
      if l != line {
        assert l in lines;
      }
    }
  }

  lemma AcceptableSnoc(lib: Library, lines: seq<string>, line: string)
    ensures Acceptable(lib, lines + [line]) <==> Acceptable(lib, lines) && !Refused(lib, lines, line)
  {
    var all := lines + [line];
    assert all[..|lines|] == lines;
    forall i | 0 <= i < |lines|
      ensures all[..i] == lines[..i] && all[i] == lines[i]
    {
    }
  }

  /** The wildcard line sets the flag and leaves the entries as they are. */
  lemma AddWildcardSpec(lib: Library, front: seq<string>, table: ConstraintsDict)
    requires Describes(lib, front, table)
    ensures Describes(lib, front + [WILDCARD], table.(constrainAll := true))
  {
    var lines := front + [WILDCARD];
    NamesSnoc(lib, front, WILDCARD);
    assert multiset(lines)[WILDCARD] == multiset(front)[WILDCARD] + 1;
    forall l | l in lines && Named(lib, l)
      ensures table.entries[NameOf(lib, l)] == lib.parseRequirement(l).value
    {
      assert l in front;
    }
  }

  /** A line naming a project no earlier line names adds exactly its own entry. */
  lemma AddEntrySpec(lib: Library, front: seq<string>, table: ConstraintsDict, line: string)
    requires Describes(lib, front, table)
    requires Named(lib, line) && NameOf(lib, line) !in table.entries
    ensures Describes(lib, front + [line],
                      table.(entries := table.entries[NameOf(lib, line) := lib.parseRequirement(line).value]))
  {
    var lines := front + [line];
    NamesSnoc(lib, front, line);
    var name := NameOf(lib, line);
    var next := table.entries[name := lib.parseRequirement(line).value];
    assert next.Keys == table.entries.Keys + {name};
    assert multiset(lines)[WILDCARD] == multiset(front)[WILDCARD];
    forall l | l in lines && Named(lib, l)
      ensures next[NameOf(lib, l)] == lib.parseRequirement(l).value
    {
      if l != line {
        assert l in front;
      }
    }
  }

  /** Adding one line to a table that describes the lines before it. */
  lemma AddConstraintSpec(lib: Library, front: seq<string>, table: ConstraintsDict, line: string)
    requires Describes(lib, front, table)
    ensures AddConstraint(lib, table, line).Success? <==> !Refused(lib, front, line)
    ensures AddConstraint(lib, table, line).Success? ==>
      Describes(lib, front + [line], AddConstraint(lib, table, line).value)
    ensures AddConstraint(lib, table, line).Failure? ==>
      AddConstraint(lib, table, line).error == RefusalMessage(lib, line)
  {
    if line == WILDCARD {
      AddWildcardSpec(lib, front, table);
    } else if Named(lib, line) && NameOf(lib, line) !in table.entries {
      AddEntrySpec(lib, front, table, line);
    }
  }

  /**
    The build succeeds exactly when no line is refused; its table is then the
    one `Describes` gives; otherwise its error is the message of the first
    refused line.
   */
  lemma {:induction false} ParseConstraintsSpec(lib: Library, lines: seq<string>)
    ensures ParseConstraints(lib, lines).Success? <==> Acceptable(lib, lines)
    ensures ParseConstraints(lib, lines).Success? ==> Describes(lib, lines, ParseConstraints(lib, lines).value)
    ensures ParseConstraints(lib, lines).Failure? ==>
      exists i :: 0 <= i < |lines| && Acceptable(lib, lines[..i]) && Refused(lib, lines[..i], lines[i])
                  && ParseConstraints(lib, lines).error == RefusalMessage(lib, lines[i])
    decreases |lines|
  {
    if lines == [] {
      assert Names(lib, lines) == {};
    } else {
      var n := |lines|;
      var front, line := lines[..n - 1], lines[n - 1];
      assert lines == front + [line];
      ParseConstraintsSpec(lib, front);
      AcceptableSnoc(lib, front, line);
      match ParseConstraints(lib, front)
      case Failure(e) =>
        var i :| 0 <= i < |front| && Acceptable(lib, front[..i]) && Refused(lib, front[..i], front[i])
                 && e == RefusalMessage(lib, front[i]);
        assert lines[..i] == front[..i] && lines[i] == front[i];
      case Success(table) =>
        AddConstraintSpec(lib, front, table, line);
        assert lines[..n - 1] == front;
    }
  }

  /** The first refused line decides the build: it fails with that line's message. */
  lemma FirstRefusalDecides(lib: Library, lines: seq<string>, i: nat)
    requires i < |lines|
    requires Acceptable(lib, lines[..i]) && Refused(lib, lines[..i], lines[i])
    ensures ParseConstraints(lib, lines) == Failure(RefusalMessage(lib, lines[i]))
  {
    var upTo := lines[..i + 1];
    assert upTo[..i] == lines[..i];
    ParseConstraintsSpec(lib, lines[..i]);
    AddConstraintSpec(lib, lines[..i], ParseConstraints(lib, lines[..i]).value, lines[i]);
    FailureIsFinal(lib, lines, i + 1);
  }

  /** The project's own test of conflicting constraints: `bla<2` then `bla<3`. */
  lemma ConflictingConstraintsExample(lib: Library, lines: seq<string>)
    requires lines == ["bla<2", "bla<3"]
    requires lib.parseRequirement("bla<2") == Success(Requirement("bla", "<2"))
    requires lib.parseRequirement("bla<3") == Success(Requirement("bla", "<3"))
    ensures ParseConstraints(lib, lines) == Failure("Constraint for 'bla' already exists.")
  {
    assert Acceptable(lib, lines[..1]) by {
      assert lines[..1][..0] == [];
      assert Names(lib, []) == {};
    }
    assert lines[0] in lines[..1];
    FirstRefusalDecides(lib, lines, 1);
    assert DuplicateMessage("bla") == "Constraint for 'bla' already exists.";
  }
}
