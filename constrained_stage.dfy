/**
  The configuration side of the constrained stage (`ConstrainedStage`): how a
  `constraints` value is brought into its stored form, and the gate that
  refuses an index configuration.
 */
module ConstrainedStage {
  import opened Wrappers
  import opened PyStr
  import opened Packaging
  import opened Constraints

  const CONSTRAINTS_KEY: string := "constraints"

  /** A configuration value as the host hands it over: free text, or a list of lines. */
  datatype ConfigValue = Text(text: string) | Lines(lines: seq<string>)

  /** A trimmed line that is kept: neither blank nor a `#` comment. */
  predicate Kept(item: string) {
    item != [] && item[0] != '#'
  }

  /** The kept lines, trimmed, in their order. */
  function CleanLines(lines: seq<string>): (items: seq<string>)
    ensures |items| <= |lines|
    ensures forall item :: item in items ==> Kept(item) && Stripped(item)
    decreases |lines|
  {
    if lines == [] then []
    else
      var front, item := lines[..|lines| - 1], Strip(lines[|lines| - 1]);
      CleanLines(front) + (if Kept(item) then [item] else [])
  }

  /** The list of lines a free-text `constraints` value is stored as. */
  function ConfigLines(text: string): seq<string> {
    CleanLines(SplitLines(text))
  }

  /**
    `normalize_indexconfig_value`: a text value for `constraints` becomes its
    kept lines; a list is returned untouched; any other key gives nothing.
   */
  method NormalizeIndexconfigValue(key: string, value: ConfigValue) returns (normalized: Option<seq<string>>)
    ensures key != CONSTRAINTS_KEY ==> normalized == None
    ensures key == CONSTRAINTS_KEY && value.Lines? ==> normalized == Some(value.lines)
    ensures key == CONSTRAINTS_KEY && value.Text? ==> normalized == Some(ConfigLines(value.text))
  {
    if key != CONSTRAINTS_KEY {
      return None;
    }
    if value.Lines? {
      return Some(value.lines);
    }
    var lines := SplitLines(value.text);
    var result := [];
    for i := 0 to |lines|
      invariant result == CleanLines(lines[..i])
    {
      assert lines[..i + 1][..i] == lines[..i];
      var item := Strip(lines[i]);
      if item == [] || item[0] == '#' {
        continue;
      }
      result := result + [item];
    }
    assert lines[..|lines|] == lines;
    return Some(result);
  }

  /** One more line: its trimmed form is appended when it is kept. */
  lemma CleanLinesSnoc(lines: seq<string>, line: string)
    ensures CleanLines(lines + [line]) ==
            CleanLines(lines) + (if Kept(Strip(line)) then [Strip(line)] else [])
  {
    var all := lines + [line];
    assert all[..|all| - 1] == lines;
  }

  /** Lines are cleaned one by one: cleaning a concatenation concatenates the results, so order is kept. */
  lemma {:induction false} CleanLinesAppend(a: seq<string>, b: seq<string>)
    ensures CleanLines(a + b) == CleanLines(a) + CleanLines(b)
    decreases |b|
  {
    if b == [] {
      assert a + b == a;
    } else {
      CleanLinesAppend(a, b[..|b| - 1]);
      CleanLinesAppendStep(a, b);
    }
  }

  /** One step of `CleanLinesAppend`: the last line of `b` on top of the lines before it. */
  lemma CleanLinesAppendStep(a: seq<string>, b: seq<string>)
    requires b != []
    requires CleanLines(a + b[..|b| - 1]) == CleanLines(a) + CleanLines(b[..|b| - 1])
    ensures CleanLines(a + b) == CleanLines(a) + CleanLines(b)
  {
    var front, last := b[..|b| - 1], b[|b| - 1];
    var tail := if Kept(Strip(last)) then [Strip(last)] else [];
    SplitLast(a, b);
    SplitLast([], b);
    CleanLinesSnoc(a + front, last);
    CleanLinesSnoc(front, last);
    ConcatAssoc(CleanLines(a), CleanLines(front), tail);
  }

  /** A non-empty sequence is its front, then its last element. */
  lemma FrontLast<T>(b: seq<T>)
    requires b != []
    ensures b == b[..|b| - 1] + [b[|b| - 1]]
  {
  }

  /** A non-empty `b` is the lines before its last one, then its last one. */
  lemma SplitLast<T>(a: seq<T>, b: seq<T>)
    requires b != []
    ensures a + b == (a + b[..|b| - 1]) + [b[|b| - 1]]
  {
  }

  lemma ConcatAssoc<T>(x: seq<T>, y: seq<T>, z: seq<T>)
    ensures (x + y) + z == x + (y + z)
  {
  }

  /** Exactly the trimmed lines that are kept survive. */
  lemma {:induction false} CleanLinesMembers(lines: seq<string>, item: string)
    ensures item in CleanLines(lines) <==> Kept(item) && exists line :: line in lines && Strip(line) == item
    decreases |lines|
  {
    if lines != [] {
      var front := lines[..|lines| - 1];
      CleanLinesMembers(front, item);
      assert lines == front + [lines[|lines| - 1]];
      if Kept(item) && (exists line :: line in lines && Strip(line) == item) {
        var line :| line in lines && Strip(line) == item;
        if line != lines[|lines| - 1] {
          assert line in front;
        }
      }
    }
  }

  /** Lines that are already trimmed and kept pass through cleaning unchanged. */
  lemma {:induction false} CleanLinesFixed(items: seq<string>)
    requires forall item :: item in items ==> Kept(item) && Stripped(item)
    ensures CleanLines(items) == items
    decreases |items|
  {
    if items != [] {
      var front := items[..|items| - 1];
      assert forall item :: item in front ==> item in items;
      assert items[|items| - 1] in items;
      CleanLinesFixed(front);
      CleanLinesFixedStep(items);
    }
  }

  /** One step of `CleanLinesFixed`: a trimmed, kept last line on top of lines that already pass through. */
  lemma CleanLinesFixedStep(items: seq<string>)
    requires items != []
    requires Kept(items[|items| - 1]) && Stripped(items[|items| - 1])
    requires CleanLines(items[..|items| - 1]) == items[..|items| - 1]
    ensures CleanLines(items) == items
  {
    FrontLast(items);
    CleanLinesSnocKept(items[..|items| - 1], items[|items| - 1]);
  }

  /** A line that is already trimmed and kept is appended as it is. */
  lemma CleanLinesSnocKept(lines: seq<string>, line: string)
    requires Kept(line) && Stripped(line)
    ensures CleanLines(lines + [line]) == CleanLines(lines) + [line]
  {
    CleanLinesSnoc(lines, line);
  }

  /** The stored list is canonical: writing it back as text, one line each, gives the same list. */
  lemma ConfigLinesRoundTrip(text: string)
    ensures ConfigLines(Join(ConfigLines(text), "\n")) == ConfigLines(text)
  {
    var lines := SplitLines(text);
    var items := CleanLines(lines);
    forall item | item in items
      ensures item != [] && NoLineBreak(item)
    {
      CleanLinesMembers(lines, item);
      var line :| line in lines && Strip(line) == item;
    }
    SplitLinesJoin(items);
    CleanLinesFixed(items);
  }

  /** Four lines, each ended by a line feed, split back into the four lines. */
  lemma SplitFourLines(a: string, b: string, c: string, d: string)
    requires NoLineBreak(a) && NoLineBreak(b) && NoLineBreak(c) && NoLineBreak(d)
    ensures SplitLines(a + "\n" + (b + "\n" + (c + "\n" + (d + "\n" + [])))) == [a, b, c, d]
  {
    var t4 := d + "\n" + [];
    var t3 := c + "\n" + t4;
    var t2 := b + "\n" + t3;
    SplitLinesCons(d, []);
    SplitLinesCons(c, t4);
    SplitLinesCons(b, t3);
    SplitLinesCons(a, t2);
    assert SplitLines([]) == [];
    FourElems(a, b, c, d);
  }

  /** A sequence built element by element. */
  lemma FourElems<T>(a: T, b: T, c: T, d: T)
    ensures [a] + ([b] + ([c] + ([d] + []))) == [a, b, c, d]
  {
  }

  /** Two constraint lines, a blank line and a comment: the blank line and the comment are dropped. */
  lemma CleanCommented(a: string, b: string, comment: string)
    requires Kept(a) && Stripped(a)
    requires Kept(b) && Stripped(b)
    requires comment != [] && comment[0] == '#' && Stripped(comment)
    ensures CleanLines([a, b, "", comment]) == [a, b]
  {
    var empty: string := [];
    CleanLinesSnoc([], a);
    CleanLinesSnoc([a], b);
    CleanLinesSnoc([a, b], empty);
    CleanLinesSnoc([a, b, empty], comment);
    assert [] + [a] == [a];
    assert [a] + [b] == [a, b];
    assert [a, b] + [empty] == [a, b, empty];
    assert [a, b, empty] + [comment] == [a, b, empty, comment];
  }

  /** The lines of the example file: two trimmed constraints, a blank line and a trimmed comment. */
  lemma ExampleLines()
    ensures NoLineBreak("bla<2") && NoLineBreak("foo>3") && NoLineBreak("") && NoLineBreak("# comment")
    ensures Kept("bla<2") && Stripped("bla<2") && Kept("foo>3") && Stripped("foo>3")
    ensures "# comment"[0] == '#' && Stripped("# comment")
  {
  }

  /** The project's own constraints file test: a text value with a blank line and a comment. */
  lemma ConstraintsFileExample()
    ensures ConfigLines("bla<2\nfoo>3\n\n# comment\n") == ["bla<2", "foo>3"]
  {
    var a, b, c, d := "bla<2", "foo>3", "", "# comment";
    assert "bla<2\nfoo>3\n\n# comment\n" == a + "\n" + (b + "\n" + (c + "\n" + (d + "\n" + [])));
    ExampleLines();
    SplitFourLines(a, b, c, d);
    CleanCommented(a, b, d);
  }

  // ----- The validation gate -----

  /** The part of an index configuration the gate looks at. */
  datatype IndexConfig = IndexConfig(constraints: seq<string>, bases: seq<string>)

  const PARSE_ERROR_PREFIX: string := "Error while parsing constrains: "
  const NO_BASE_MESSAGE: string := "A constrained index requires at least one base"

  /**
    The messages `validate_config` collects: one when the constraints do not
    build, one when there is no base; the two conditions are independent.
   */
  function ConfigErrors(lib: Library, config: IndexConfig): (errors: seq<string>)
    ensures errors == [] <==> Acceptable(lib, config.constraints) && |config.bases| >= 1
    ensures Acceptable(lib, config.constraints) ==>
              errors == (if |config.bases| < 1 then [NO_BASE_MESSAGE] else [])
    ensures !Acceptable(lib, config.constraints) ==>
              && ParseConstraints(lib, config.constraints).Failure?
              && |errors| >= 1
              && errors[0] == PARSE_ERROR_PREFIX + ParseConstraints(lib, config.constraints).error
              && errors[1..] == (if |config.bases| < 1 then [NO_BASE_MESSAGE] else [])
  {
    ParseConstraintsSpec(lib, config.constraints);
    (match ParseConstraints(lib, config.constraints)
     case Failure(e) => [PARSE_ERROR_PREFIX + e]
     case Success(_) => [])
    + (if |config.bases| < 1 then [NO_BASE_MESSAGE] else [])
  }

  /**
    `validate_config`: the error list the host raises as an invalid index
    configuration; an empty list lets the configuration through.
   */
  method ValidateConfig(lib: Library, oldconfig: IndexConfig, newconfig: IndexConfig) returns (errors: seq<string>)
    ensures errors == ConfigErrors(lib, newconfig)
  {
    errors := [];
    var built := BuildConstraints(lib, newconfig.constraints);
    if built.Failure? {
      errors := errors + [PARSE_ERROR_PREFIX + built.error];
    }
    if |newconfig.bases| < 1 {
      errors := errors + [NO_BASE_MESSAGE];
    }
  }

  /** `s` occurs in `text`. */
  predicate Contains(text: string, s: string) {
    exists k :: 0 <= k <= |text| && s <= text[k..]
  }

  /**
    A second line for an already named project fails validation with a
    message naming the project (when no earlier line failed first).
   */
  lemma DuplicateRejected(lib: Library, config: IndexConfig, i: nat, j: nat)
    requires j < i < |config.constraints|
    requires Named(lib, config.constraints[j]) && Named(lib, config.constraints[i])
    requires NameOf(lib, config.constraints[j]) == NameOf(lib, config.constraints[i])
    requires Acceptable(lib, config.constraints[..i])
    ensures ConfigErrors(lib, config) != []
    ensures ConfigErrors(lib, config)[0] ==
            PARSE_ERROR_PREFIX + DuplicateMessage(NameOf(lib, config.constraints[i]))
  {
    var lines := config.constraints;
    assert lines[j] in lines[..i];
    FirstRefusalDecides(lib, lines, i);
  }

  /**
    A line the requirement parser rejects fails validation with a message
    that contains the line (when no earlier line failed first).
   */
  lemma MalformedRejected(lib: Library, config: IndexConfig, i: nat)
    requires i < |config.constraints|
    requires config.constraints[i] != WILDCARD
    requires lib.parseRequirement(config.constraints[i]).Failure?
    requires Acceptable(lib, config.constraints[..i])
    ensures ConfigErrors(lib, config) != []
    ensures Contains(ConfigErrors(lib, config)[0], config.constraints[i])
  {
    var lines := config.constraints;
    var line := lines[i];
    FirstRefusalDecides(lib, lines, i);
    var e := lib.parseRequirement(line).error;
    var message := PARSE_ERROR_PREFIX + e + " for '" + line + "'";
    assert ConfigErrors(lib, config)[0] == message;
    var k := |PARSE_ERROR_PREFIX + e + " for '"|;
    assert message[k..] == line + "'";
  }
}
