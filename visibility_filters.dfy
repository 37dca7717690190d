/**
  The three visibility filters of the constrained stage
  (`get_projects_filter_iter`, `get_versions_filter_iter`,
  `get_simple_links_filter_iter`). Each yields one boolean per item it
  judges, or nothing at all when it has no opinion; the yielded values are
  modelled as the sequence of them.
 */
module VisibilityFilters {
  import opened PyStr
  import opened Packaging
  import opened Constraints

  // ----- Projects -----

  /** One verdict per project, in order: is the project listed in the table? */
  function ProjectVerdicts(table: ConstraintsDict, projects: seq<string>): (verdicts: seq<bool>)
    ensures |verdicts| == |projects|
    ensures forall i :: 0 <= i < |projects| ==> verdicts[i] == (projects[i] in table.entries)
  {
    if projects == [] then []
    else [projects[0] in table.entries] + ProjectVerdicts(table, projects[1..])
  }

  /** `get_projects_filter_iter`: no opinion unless `constrain_all` is set. */
  function ProjectsFilter(table: ConstraintsDict, projects: seq<string>): (verdicts: seq<bool>)
    ensures !table.constrainAll ==> verdicts == []
    ensures table.constrainAll ==> verdicts == ProjectVerdicts(table, projects)
  {
    if !table.constrainAll then [] else ProjectVerdicts(table, projects)
  }

  // ----- Versions -----

  /** One verdict per version, in order: does the version satisfy the requirement? */
  function VersionVerdicts(lib: Library, req: Requirement, versions: seq<string>): (verdicts: seq<bool>)
    ensures |verdicts| == |versions|
    ensures forall i :: 0 <= i < |versions| ==> verdicts[i] == lib.versionIn(req, versions[i])
  {
    if versions == [] then []
    else [lib.versionIn(req, versions[0])] + VersionVerdicts(lib, req, versions[1..])
  }

  /** `get_versions_filter_iter`: no opinion on a project without an entry, whatever `constrain_all` is. */
  function VersionsFilter(lib: Library, table: ConstraintsDict, project: string, versions: seq<string>): (verdicts: seq<bool>)
    ensures project !in table.entries ==> verdicts == []
    ensures project in table.entries ==> verdicts == VersionVerdicts(lib, table.entries[project], versions)
  {
    if project !in table.entries then [] else VersionVerdicts(lib, table.entries[project], versions)
  }

  // ----- Release links -----

  /**
    A release link as the host passes it: a tuple whose first element is a
    file name key, or a link object that already carries name and version.
   */
  datatype Link = KeyTuple(key: string) | LinkInfo(name: string, version: string)

  /** The project name a file name gives when its first `index` parts are the name. */
  function PrefixName(lib: Library, parts: seq<string>, index: nat): string
    requires index <= |parts|
  {
    lib.normalizeName(Join(parts[..index], "-"))
  }

  /** The version a file name gives when its first `index` parts are the name. */
  function SuffixVersion(parts: seq<string>, index: nat): string
    requires index <= |parts|
  {
    Join(parts[index..], "-")
  }

  /** Splitting the file name after `index` parts is a candidate naming `project`. */
  predicate PrefixMatches(lib: Library, parts: seq<string>, index: nat, project: string) {
    0 < index < |parts| && PrefixName(lib, parts, index) == project
  }

  /** The version left after the first `index` parts satisfies the requirement. */
  predicate SuffixSatisfies(lib: Library, req: Requirement, parts: seq<string>, index: nat)
    requires index <= |parts|
  {
    lib.versionIn(req, SuffixVersion(parts, index))
  }

  /**
    The prefix search of `get_simple_links_filter_iter`, from prefix length
    `index` on: a candidate naming another project is skipped; one naming
    `project` yields whether its version satisfies the requirement, and the
    search stops after the first True but goes on after a False.
   */
  function SearchKey(lib: Library, project: string, req: Requirement, parts: seq<string>, index: nat): (verdicts: seq<bool>)
    requires 1 <= index
    ensures forall i :: 0 <= i < |verdicts| - 1 ==> !verdicts[i]
    ensures verdicts == [] <==> forall j :: index <= j ==> !PrefixMatches(lib, parts, j, project)
    ensures true in verdicts <==>
              exists j :: index <= j && PrefixMatches(lib, parts, j, project) && SuffixSatisfies(lib, req, parts, j)
    decreases |parts| - index
  {
    if index >= |parts| then []
    else if PrefixName(lib, parts, index) != project then SearchKey(lib, project, req, parts, index + 1)
    else
      assert PrefixMatches(lib, parts, index, project);
      if SuffixSatisfies(lib, req, parts, index) then [true]
      else [false] + SearchKey(lib, project, req, parts, index + 1)
  }

  /**
    The prefix lengths from `index` on whose name normalises to `project`,
    in increasing order: the candidates the search judges.
   */
  function Matches(lib: Library, project: string, parts: seq<string>, index: nat): (m: seq<nat>)
    ensures forall i :: 0 <= i < |m| ==> index <= m[i] && PrefixMatches(lib, parts, m[i], project)
    ensures forall i, k :: 0 <= i < k < |m| ==> m[i] < m[k]
    ensures forall j :: index <= j && PrefixMatches(lib, parts, j, project) ==> j in m
    decreases |parts| - index
  {
    if index >= |parts| then []
    else if PrefixMatches(lib, parts, index, project) then [index] + Matches(lib, project, parts, index + 1)
    else Matches(lib, project, parts, index + 1)
  }

  /**
    `verdicts` judge the candidate prefix lengths `m` in order and stop after
    the first True: each verdict is whether its candidate's version satisfies
    the requirement, and fewer verdicts than candidates means the last is True.
   */
  predicate JudgesInOrder(lib: Library, req: Requirement, parts: seq<string>, verdicts: seq<bool>, m: seq<nat>) {
    && (forall i :: 0 <= i < |m| ==> m[i] <= |parts|)
    && |verdicts| <= |m|
    && (forall i :: 0 <= i < |verdicts| ==> verdicts[i] == SuffixSatisfies(lib, req, parts, m[i]))
    && (|verdicts| < |m| ==> verdicts != [] && verdicts[|verdicts| - 1])
  }

  /**
    The search judges the matching prefixes in increasing order, one verdict
    each, and stops after the first True.
   */
  lemma {:induction false} SearchKeyJudgesMatches(lib: Library, project: string, req: Requirement, parts: seq<string>, index: nat)
    requires 1 <= index
    ensures JudgesInOrder(lib, req, parts, SearchKey(lib, project, req, parts, index), Matches(lib, project, parts, index))
    decreases |parts| - index, 1
  {
    if index < |parts| {
      SearchKeyJudgesStep(lib, project, req, parts, index);
    } else {
      SearchKeyJudgesEnd(lib, project, req, parts, index);
    }
  }

  /** Past the last part there is nothing to judge. */
  lemma SearchKeyJudgesEnd(lib: Library, project: string, req: Requirement, parts: seq<string>, index: nat)
    requires 1 <= index && |parts| <= index
    ensures JudgesInOrder(lib, req, parts, SearchKey(lib, project, req, parts, index), Matches(lib, project, parts, index))
  {
    assert SearchKey(lib, project, req, parts, index) == [];
    assert Matches(lib, project, parts, index) == [];
  }

  /** One step of `SearchKeyJudgesMatches`: the prefix of length `index` on top of the later ones. */
  lemma {:induction false} SearchKeyJudgesStep(lib: Library, project: string, req: Requirement, parts: seq<string>, index: nat)
    requires 1 <= index < |parts|
    ensures JudgesInOrder(lib, req, parts, SearchKey(lib, project, req, parts, index), Matches(lib, project, parts, index))
    decreases |parts| - index, 0
  {
    SearchKeyJudgesMatches(lib, project, req, parts, index + 1);
    var verdicts, m := SearchKey(lib, project, req, parts, index + 1), Matches(lib, project, parts, index + 1);
    if !PrefixMatches(lib, parts, index, project) {
      assert SearchKey(lib, project, req, parts, index) == verdicts;
      assert Matches(lib, project, parts, index) == m;
    } else if SuffixSatisfies(lib, req, parts, index) {
      assert SearchKey(lib, project, req, parts, index) == [true];
      assert Matches(lib, project, parts, index) == [index] + m;
      JudgedFirst(lib, req, parts, index, m);
    } else {
      assert SearchKey(lib, project, req, parts, index) == [false] + verdicts;
      assert Matches(lib, project, parts, index) == [index] + m;
      JudgedMatchesCons(lib, req, parts, index, verdicts, m);
    }
  }

  /** A satisfied first candidate is the only one judged. */
  lemma JudgedFirst(lib: Library, req: Requirement, parts: seq<string>, index: nat, m: seq<nat>)
    requires index < |parts| && SuffixSatisfies(lib, req, parts, index)
    requires forall i :: 0 <= i < |m| ==> m[i] <= |parts|
    ensures JudgesInOrder(lib, req, parts, [true], [index] + m)
  {
  }

  /** An unsatisfied first candidate is judged False, and the later ones are judged after it. */
  lemma JudgedMatchesCons(lib: Library, req: Requirement, parts: seq<string>, index: nat, verdicts: seq<bool>, m: seq<nat>)
    requires index < |parts| && !SuffixSatisfies(lib, req, parts, index)
    requires JudgesInOrder(lib, req, parts, verdicts, m)
    ensures JudgesInOrder(lib, req, parts, [false] + verdicts, [index] + m)
  {
    var v, n := [false] + verdicts, [index] + m;
    forall i | 0 <= i < |v|
      ensures v[i] == SuffixSatisfies(lib, req, parts, n[i])
    {
      if i > 0 {
        assert v[i] == verdicts[i - 1] && n[i] == m[i - 1];
      }
    }
  }

  /** The parts of a file name key: its base, the archive extension removed, split on `-`. */
  function KeyParts(lib: Library, key: string): seq<string> {
    Split(lib.splitextArchive(key).0, '-')
  }

  /**
    What one link contributes: a link object of another project nothing, one
    of the project whether its version satisfies the requirement, a file name
    key the verdicts of the prefix search; at most one True, and only last.
   */
  function JudgeLink(lib: Library, project: string, req: Requirement, link: Link): (verdicts: seq<bool>)
    ensures forall i :: 0 <= i < |verdicts| - 1 ==> !verdicts[i]
    ensures link.LinkInfo? ==> verdicts == (if link.name == project then [lib.versionIn(req, link.version)] else [])
    ensures link.KeyTuple? ==> verdicts == SearchKey(lib, project, req, KeyParts(lib, link.key), 1)
  {
    match link
    case KeyTuple(key) => SearchKey(lib, project, req, KeyParts(lib, key), 1)
    case LinkInfo(name, version) => if name != project then [] else [lib.versionIn(req, version)]
  }

  /**
    The verdicts of the links, in order. When every link is a link object of
    the project itself, there is exactly one verdict per link and it is
    whether the link's version satisfies the requirement.
   */
  function JudgeLinks(lib: Library, project: string, req: Requirement, links: seq<Link>): (verdicts: seq<bool>)
    ensures (forall link :: link in links ==> link.LinkInfo? && link.name == project) ==>
              && |verdicts| == |links|
              && forall i :: 0 <= i < |links| ==> verdicts[i] == lib.versionIn(req, links[i].version)
  {
    if links == [] then []
    else
      var head, tail := JudgeLink(lib, project, req, links[0]), JudgeLinks(lib, project, req, links[1..]);
      assert links[0] in links;
      assert forall link :: link in links[1..] ==> link in links;
      head + tail
  }

  /** `get_simple_links_filter_iter`: no opinion on a project without an entry. */
  function LinksFilter(lib: Library, table: ConstraintsDict, project: string, links: seq<Link>): (verdicts: seq<bool>)
    ensures project !in table.entries ==> verdicts == []
    ensures project in table.entries ==> verdicts == JudgeLinks(lib, project, table.entries[project], links)
  {
    if project !in table.entries then [] else JudgeLinks(lib, project, table.entries[project], links)
  }

  /** Each link is judged on its own: the verdicts of two lists are those of each, one after the other. */
  lemma {:induction false} JudgeLinksAppend(lib: Library, project: string, req: Requirement, a: seq<Link>, b: seq<Link>)
    ensures JudgeLinks(lib, project, req, a + b) == JudgeLinks(lib, project, req, a) + JudgeLinks(lib, project, req, b)
    decreases |a|
  {
    if a == [] {
      assert a + b == b;
    } else {
      assert (a + b)[0] == a[0];
      assert (a + b)[1..] == a[1..] + b;
      JudgeLinksAppend(lib, project, req, a[1..], b);
    }
  }

  /** A list of one link gives that link's verdicts; with `JudgeLinksAppend` this fixes the verdicts of any list. */
  lemma JudgeLinksSingle(lib: Library, project: string, req: Requirement, link: Link)
    ensures JudgeLinks(lib, project, req, [link]) == JudgeLink(lib, project, req, link)
  {
    assert [link][1..] == [];
  }

  /**
    The shortest prefix naming the project decides the first verdict; when
    its version satisfies the requirement, that verdict is the only one.
   */
  lemma {:induction false} SearchKeyShortestMatch(lib: Library, project: string, req: Requirement, parts: seq<string>, index: nat, j: nat)
    requires 1 <= index <= j
    requires PrefixMatches(lib, parts, j, project)
    requires forall k :: index <= k < j ==> !PrefixMatches(lib, parts, k, project)
    ensures SearchKey(lib, project, req, parts, index) != []
    ensures SearchKey(lib, project, req, parts, index)[0] == SuffixSatisfies(lib, req, parts, j)
    ensures SuffixSatisfies(lib, req, parts, j) ==> SearchKey(lib, project, req, parts, index) == [true]
    decreases j - index
  {
    if index < j {
      assert !PrefixMatches(lib, parts, index, project);
      SearchKeyShortestMatch(lib, project, req, parts, index + 1, j);
    }
  }

  /** Every candidate split of a file name puts the name, a `-` and the version back together as the base. */
  lemma CandidateSplitReassembles(base: string, index: nat)
    requires 0 < index < |Split(base, '-')|
    ensures var parts := Split(base, '-');
            Join(parts[..index], "-") + "-" + SuffixVersion(parts, index) == base
  {
    var parts := Split(base, '-');
    assert parts == parts[..index] + parts[index..];
    JoinAppend(parts[..index], parts[index..], "-");
    JoinSplit(base, '-');
  }

  /** A key whose base has no `-` has no candidate split, so it yields nothing. */
  lemma KeyWithoutSeparator(lib: Library, project: string, req: Requirement, key: string)
    requires '-' !in lib.splitextArchive(key).0
    ensures JudgeLink(lib, project, req, KeyTuple(key)) == []
  {
  }

  /**
    A file name `<name>-<version>.<ext>` where neither part holds a `-` and
    the name is already normalised yields exactly one verdict: whether the
    version satisfies the requirement.
   */
  lemma SimpleKey(lib: Library, req: Requirement, key: string, name: string, version: string)
    requires lib.splitextArchive(key).0 == name + "-" + version
    requires '-' !in name && '-' !in version
    requires lib.normalizeName(name) == name
    ensures JudgeLink(lib, name, req, KeyTuple(key)) == [lib.versionIn(req, version)]
  {
    var parts := KeyParts(lib, key);
    assert parts == [name, version] by {
      SplitJoin([name, version], '-');
    }
    assert parts[..1] == [name] && parts[1..] == [version];
    assert SearchKey(lib, name, req, parts, 2) == [];
  }

  /**
    The project's own release files: for `pkg` constrained to `==1.1`, the
    files `pkg-1.1.zip` and `pkg-2.0.zip` (any keys whose base names are
    `pkg-1.1` and `pkg-2.0`) get the verdicts shown and hidden.
   */
  lemma ReleaseFilesExample(lib: Library, table: ConstraintsDict, req: Requirement, key1: string, key2: string)
    requires table.entries == map["pkg" := req]
    requires lib.splitextArchive(key1).0 == "pkg-1.1"
    requires lib.splitextArchive(key2).0 == "pkg-2.0"
    requires lib.normalizeName("pkg") == "pkg"
    requires lib.versionIn(req, "1.1") && !lib.versionIn(req, "2.0")
    ensures LinksFilter(lib, table, "pkg", [KeyTuple(key1), KeyTuple(key2)]) == [true, false]
  {
    assert "pkg" + "-" + "1.1" == "pkg-1.1" && "pkg" + "-" + "2.0" == "pkg-2.0";
    SimpleKey(lib, req, key1, "pkg", "1.1");
    SimpleKey(lib, req, key2, "pkg", "2.0");
    JudgeLinksAppend(lib, "pkg", req, [KeyTuple(key1)], [KeyTuple(key2)]);
    assert JudgeLinks(lib, "pkg", req, [KeyTuple(key1)]) == [true];
    assert JudgeLinks(lib, "pkg", req, [KeyTuple(key2)]) == [false];
  }

  // ----- The filters over a table built from configuration lines -----

  /**
    Listing projects: without the wildcard the filter has no opinion; with
    it, a project is shown exactly when some line names it.
   */
  lemma ConfiguredProjects(lib: Library, lines: seq<string>, projects: seq<string>)
    requires ParseConstraints(lib, lines).Success?
    ensures var verdicts := ProjectsFilter(ParseConstraints(lib, lines).value, projects);
            && (WILDCARD !in lines ==> verdicts == [])
            && (WILDCARD in lines ==>
                  && |verdicts| == |projects|
                  && forall i :: 0 <= i < |projects| ==> verdicts[i] == (projects[i] in Names(lib, lines)))
  {
    ParseConstraintsSpec(lib, lines);
  }

  /**
    Listing versions: no opinion on a project no line names; otherwise each
    version is shown exactly when it satisfies the line naming the project.
   */
  lemma ConfiguredVersions(lib: Library, lines: seq<string>, project: string, versions: seq<string>)
    requires ParseConstraints(lib, lines).Success?
    ensures var verdicts := VersionsFilter(lib, ParseConstraints(lib, lines).value, project, versions);
            && (project !in Names(lib, lines) ==> verdicts == [])
            && forall line :: line in lines && Named(lib, line) && NameOf(lib, line) == project ==>
                 && |verdicts| == |versions|
                 && forall i :: 0 <= i < |versions| ==>
                      verdicts[i] == lib.versionIn(lib.parseRequirement(line).value, versions[i])
  {
    ParseConstraintsSpec(lib, lines);
  }

  /**
    Listing release links: no opinion on a project no line names; otherwise
    the links are judged against the requirement of the line naming it.
   */
  lemma ConfiguredLinks(lib: Library, lines: seq<string>, project: string, links: seq<Link>)
    requires ParseConstraints(lib, lines).Success?
    ensures var verdicts := LinksFilter(lib, ParseConstraints(lib, lines).value, project, links);
            && (project !in Names(lib, lines) ==> verdicts == [])
            && forall line :: line in lines && Named(lib, line) && NameOf(lib, line) == project ==>
                 verdicts == JudgeLinks(lib, project, lib.parseRequirement(line).value, links)
  {
    ParseConstraintsSpec(lib, lines);
  }
}
