/** Wiki restructure: moved pages and the relative links between them (scripts/wiki-restructure.py). */
module WikiLinks {
  /** A path as its segments; the empty path is ".". */
  type Path = seq<string>

  // ---- posixpath ----

  function Split(s: string): (p: Path)
    ensures |p| > 0
  {
    if s == "" then [""]
    else if s[0] == '/' then [""] + Split(s[1..])
    else var p := Split(s[1..]); [[s[0]] + p[0]] + p[1..]
  }

  function Join(p: Path): string
    requires |p| > 0
  {
    if |p| == 1 then p[0] else p[0] + "/" + Join(p[1..])
  }

  function TextOf(p: Path): string { if p == [] then "." else Join(p) }

  /** One step of normpath; at the root there is nothing above. */
  function Push(stack: Path, seg: string, rooted: bool): Path {
    if seg == "" || seg == "." then stack
    else if seg != ".." then stack + [seg]
    else if stack == [] then (if rooted then [] else [seg])
    else if stack[|stack|-1] == ".." then stack + [seg]
    else stack[..|stack|-1]
  }

  function NormFrom(stack: Path, p: Path, rooted: bool): Path
    decreases |p|
  {
    if p == [] then stack else NormFrom(Push(stack, p[0], rooted), p[1..], rooted)
  }

  function DirName(page: Path): Path
    requires page != []
  {
    page[..|page|-1]
  }

  function Abs(cwd: Path, p: Path): Path { NormFrom(cwd, p, true) }

  function Common(a: Path, b: Path): (n: nat)
    ensures n <= |a| && n <= |b| && a[..n] == b[..n]
    ensures n < |a| && n < |b| ==> a[n] != b[n]
  {
    if a == [] || b == [] || a[0] != b[0] then 0 else 1 + Common(a[1..], b[1..])
  }

  function Ups(n: nat): Path { seq(n, i => "..") }

  /** relpath compares the absolute forms, so the working directory takes part. */
  function RelPath(cwd: Path, path: Path, start: Path): Path {
    var a, b := Abs(cwd, start), Abs(cwd, path);
    Ups(|a| - Common(a, b)) + b[Common(a, b)..]
  }

  // ---- new_path ----

  const GUIDE_MOVES: map<Path, Path> := map[
    ["guide", "setting-up-a-client.md"] := ["use", "setting-up-a-client.md"],
    ["glossary.md"] := ["reference", "glossary.md"],
    ["for-engineers.md"] := ["understand", "index.md"],
    ["reference", "api-endpoints.md"] := ["reference", "api", "index.md"]
  ]

  const DEVELOP_MOVES: map<Path, Path> := map[
    ["operations", "local-development.md"] := ["build", "develop", "local-development.md"],
    ["operations", "branches-and-merging.md"] := ["build", "develop", "branches-and-merging.md"]
  ]

  const OPERATE_MOVES: map<Path, Path> := map[
    ["operations", "runbooks.md"] := ["build", "operate", "runbooks.md"],
    ["operations", "onboarding-a-client.md"] := ["build", "operate", "onboarding-a-client.md"],
    ["operations", "first-time-box-setup.md"] := ["build", "operate", "first-time-box-setup.md"],
    ["operations", "dba-guide.md"] := ["build", "operate", "dba-guide.md"]
  ]

  const FILE_MOVES := GUIDE_MOVES + DEVELOP_MOVES + OPERATE_MOVES

  const FOLDER_MOVES: seq<(Path, Path)> := [
    (["guide", "customize"], ["use", "customize"]),
    (["architecture"], ["understand", "architecture"]),
    (["subsystems"], ["understand", "subsystems"]),
    (["components"], ["understand", "components"])
  ]

  predicate Under(p: Path, folder: Path) { |p| > |folder| && p[..|folder|] == folder }

  /** The first folder the path is under moves it. */
  function FolderMoved(p: Path, i: nat): Path
    requires i <= |FOLDER_MOVES|
    decreases |FOLDER_MOVES| - i
  {
    if i == |FOLDER_MOVES| then p
    else if Under(p, FOLDER_MOVES[i].0) then FOLDER_MOVES[i].1 + p[|FOLDER_MOVES[i].0|..]
    else FolderMoved(p, i + 1)
  }

  function NewPath(p: Path): Path { if p in FILE_MOVES then FILE_MOVES[p] else FolderMoved(p, 0) }

  // ---- rewrite ----

  /** Position of the first '#', or the length. */
  function Hash(s: string): (n: nat)
    ensures n <= |s| && (n < |s| ==> s[n] == '#') && forall k :: 0 <= k < n ==> s[k] != '#'
  {
    if s == "" || s[0] == '#' then 0 else 1 + Hash(s[1..])
  }

  function PathPart(target: string): string { target[..Hash(target)] }
  /** The fragment with its '#'. */
  function FragPart(target: string): string { target[Hash(target)..] }

  function Letters(s: string): nat { if s != "" && 'a' <= s[0] <= 'z' then 1 + Letters(s[1..]) else 0 }
  predicate HasScheme(s: string) { var n := Letters(s); 0 < n < |s| && s[n] == ':' }
  predicate EndsMd(s: string) { |s| >= 3 && s[|s|-3..] == ".md" }

  /** Where a relative link on a page points. */
  function Resolve(page: Path, link: string): Path
    requires page != []
  {
    NormFrom([], DirName(page) + Split(link), false)
  }

  predicate Rewritable(target: string) {
    !HasScheme(target) && target != "" && target[0] != '#' && target[0] != '/' && EndsMd(PathPart(target))
  }

  function Fix(cwd: Path, target: string, oldPage: Path, newPage: Path): string
    requires oldPage != [] && newPage != []
  {
    if !Rewritable(target) then target
    else TextOf(RelPath(cwd, NewPath(Resolve(oldPage, PathPart(target))), DirName(newPage))) + FragPart(target)
  }

  lemma {:induction false} LettersIs(s: string)
    ensures Letters(s) <= |s| && (forall k :: 0 <= k < Letters(s) ==> 'a' <= s[k] <= 'z')
    ensures Letters(s) < |s| ==> !('a' <= s[Letters(s)] <= 'z')
  {
    if s != "" && 'a' <= s[0] <= 'z' { LettersIs(s[1..]); }
  }

  /** Some small letters and a colon at the front. */
  ghost predicate NamesScheme(s: string) {
    exists n :: 0 < n < |s| && s[n] == ':' && forall k :: 0 <= k < n ==> 'a' <= s[k] <= 'z'
  }

  /** A text that ends in .md, and perhaps a fragment. */
  ghost predicate NamesPage(target: string) { exists stem, frag :: PageAndFragment(target, stem, frag) }

  ghost predicate PageAndFragment(target: string, stem: string, frag: string) {
    target == stem + ".md" + frag && '#' !in stem && (frag == "" || frag[0] == '#')
  }

  lemma {:induction false} SchemeIff(s: string)
    ensures HasScheme(s) <==> NamesScheme(s)
  {
    LettersIs(s);
    var m := Letters(s);
    if n :| 0 < n < |s| && s[n] == ':' && forall k :: 0 <= k < n ==> 'a' <= s[k] <= 'z' {
      assert m == n;
    }
  }

  lemma {:induction false} HashAt(path: string, frag: string)
    requires '#' !in path && (frag == "" || frag[0] == '#')
    ensures Hash(path + frag) == |path|
  {
    var target := path + frag;
    assert forall k :: 0 <= k < |path| ==> target[k] == path[k] && path[k] in path;
    assert frag != "" ==> target[|path|] == '#';
  }

  lemma {:induction false} MarkdownIff(target: string)
    ensures EndsMd(PathPart(target)) <==> NamesPage(target)
  {
    hide Hash;
    if EndsMd(PathPart(target)) {
      var n := Hash(target);
      assert PathPart(target) == target[..n-3] + ".md";
      assert target == PathPart(target) + target[n..];
      assert PageAndFragment(target, target[..n-3], target[n..]);
    }
    if NamesPage(target) {
      var stem, frag :| PageAndFragment(target, stem, frag);
      var path := stem + ".md";
      HashAt(path, frag);
      assert target[..|path|] == path && path[|path|-3..] == ".md";
    }
  }

  /** A link is touched exactly when it has no scheme, is no anchor and not absolute, and names a page before its
      fragment. Any other stays as it is. */
  lemma {:induction false} RewritableIff(cwd: Path, target: string, oldPage: Path, newPage: Path)
    requires oldPage != [] && newPage != []
    ensures Rewritable(target) <==>
      !NamesScheme(target) && target != "" && target[0] != '#' && target[0] != '/' && NamesPage(target)
    ensures !Rewritable(target) ==> Fix(cwd, target, oldPage, newPage) == target
  {
    SchemeIff(target);
    MarkdownIff(target);
    hide HasScheme, EndsMd, PathPart, NamesScheme, NamesPage;
  }

  // ---- normal paths ----

  /** A real name: neither empty nor dots, and no slash. */
  predicate Name(s: string) { s != "" && s != "." && s != ".." && '/' !in s }
  predicate Names(p: Path) { forall k :: 0 <= k < |p| ==> Name(p[k]) }

  /** Leading steps up. */
  function Climb(p: Path): (u: nat)
    ensures u <= |p| && (u < |p| ==> p[u] != "..") && p[..u] == Ups(u)
  {
    if p == [] || p[0] != ".." then 0 else 1 + Climb(p[1..])
  }

  predicate Normal(p: Path) { Names(p[Climb(p)..]) }

  lemma {:induction false} ClimbIs(p: Path, u: nat)
    requires u <= |p| && (u < |p| ==> p[u] != "..") && forall k :: 0 <= k < u ==> p[k] == ".."
    ensures Climb(p) == u
  {
    var c := Climb(p);
    assert forall k :: 0 <= k < c ==> p[k] == Ups(c)[k];
  }

  /** A path without slashes inside its segments. */
  predicate Whole(p: Path) { forall k :: 0 <= k < |p| ==> '/' !in p[k] }

  lemma {:induction false} SplitIsWhole(s: string)
    ensures Whole(Split(s))
  {
    if s != "" { SplitIsWhole(s[1..]); }
  }

  lemma {:induction false} SplitFirst(a: string, s: string)
    requires '/' !in a
    ensures Split(a + s) == [a + Split(s)[0]] + Split(s)[1..]
  {
    var p := Split(s);
    if a == "" {
      assert a + s == s && a + p[0] == p[0];
      assert p == [p[0]] + p[1..];
    } else {
      SplitFirst(a[1..], s);
      assert (a + s)[1..] == a[1..] + s && (a + s)[0] == a[0];
      var r := [a[1..] + p[0]] + p[1..];
      assert r[1..] == p[1..];
      assert [a[0]] + (a[1..] + p[0]) == a + p[0];
    }
  }

  lemma {:induction false} SplitJoin(p: Path)
    requires |p| > 0 && Whole(p)
    ensures Split(Join(p)) == p
  {
    if |p| == 1 {
      SplitFirst(p[0], "");
      assert p[0] + "" == p[0];
    } else {
      SplitJoin(p[1..]);
      var rest := "/" + Join(p[1..]);
      assert rest[1..] == Join(p[1..]);
      assert Split(rest) == [""] + p[1..];
      SplitFirst(p[0], rest);
      assert p[0] + "/" + Join(p[1..]) == p[0] + rest;
      assert p[0] + "" == p[0];
      assert p == [p[0]] + p[1..];
    }
  }

  lemma {:induction false} JoinSplit(s: string)
    ensures Join(Split(s)) == s
  {
    if s != "" {
      JoinSplit(s[1..]);
      var p := Split(s[1..]);
      assert s == [s[0]] + s[1..];
      if s[0] == '/' {
        assert Split(s) == [""] + p && Split(s)[1..] == p;
        assert "" + "/" + s[1..] == s;
      } else {
        assert Split(s)[1..] == p[1..] && Split(s)[0] == [s[0]] + p[0];
      }
    }
  }

  lemma {:induction false} JoinAppend(a: Path, b: Path)
    requires a != [] && b != []
    ensures Join(a + b) == Join(a) + "/" + Join(b)
  {
    if |a| == 1 {
      assert (a + b)[1..] == b;
    } else {
      JoinAppend(a[1..], b);
      assert (a + b)[1..] == a[1..] + b;
      var head, mid, rest := a[0], Join(a[1..]), Join(b);
      assert head + "/" + (mid + "/" + rest) == (head + "/" + mid) + "/" + rest;
    }
  }

  lemma {:induction false} JoinIsInjective(a: Path, b: Path)
    requires a != [] && b != [] && Whole(a) && Whole(b)
    ensures Join(a) == Join(b) <==> a == b
  {
    SplitJoin(a);
    SplitJoin(b);
  }

  lemma {:induction false} JoinTwo(a: string, b: string)
    ensures Join([a, b]) == a + "/" + b
  {
    assert [a, b][1..] == [b];
  }

  lemma {:induction false} JoinOne(a: string)
    ensures Join([a]) == a
  {
  }

  lemma {:induction false} JoinThree(a: string, b: string, c: string)
    ensures Join([a, b, c]) == a + "/" + b + "/" + c
  {
    JoinTwo(b, c);
    assert [a, b, c][1..] == [b, c];
    assert a + "/" + (b + "/" + c) == a + "/" + b + "/" + c;
  }

  // ---- new_path, text by text ----

  /** The pages that move on their own. */
  ghost predicate PageMoves(page: string, to: string) {
    || (page == "guide" + "/" + "setting-up-a-client.md" && to == "use" + "/" + "setting-up-a-client.md")
    || (page == "glossary.md" && to == "reference" + "/" + "glossary.md")
    || (page == "for-engineers.md" && to == "understand" + "/" + "index.md")
    || (page == "reference" + "/" + "api-endpoints.md" && to == "reference" + "/" + "api" + "/" + "index.md")
    || (page == "operations" + "/" + "local-development.md" &&
      to == "build" + "/" + "develop" + "/" + "local-development.md")
    || (page == "operations" + "/" + "branches-and-merging.md" &&
      to == "build" + "/" + "develop" + "/" + "branches-and-merging.md")
    || (page == "operations" + "/" + "runbooks.md" && to == "build" + "/" + "operate" + "/" + "runbooks.md")
    || (page == "operations" + "/" + "onboarding-a-client.md" &&
      to == "build" + "/" + "operate" + "/" + "onboarding-a-client.md")
    || (page == "operations" + "/" + "first-time-box-setup.md" &&
      to == "build" + "/" + "operate" + "/" + "first-time-box-setup.md")
    || (page == "operations" + "/" + "dba-guide.md" && to == "build" + "/" + "operate" + "/" + "dba-guide.md")
  }

  /** Any other page moves with its folder, or stays. */
  ghost predicate FolderMoves(page: string, to: string) {
    if "guide" + "/" + "customize" + "/" <= page then to == "use" + "/" + "customize" + "/" + page[16..]
    else if "architecture" + "/" <= page then to == "understand" + "/" + "architecture" + "/" + page[13..]
    else if "subsystems" + "/" <= page then to == "understand" + "/" + "subsystems" + "/" + page[11..]
    else if "components" + "/" <= page then to == "understand" + "/" + "components" + "/" + page[11..]
    else to == page
  }

  lemma {:induction false} SetupMove()
    ensures Whole(["guide", "setting-up-a-client.md"]) && Join(["guide", "setting-up-a-client.md"]) ==
      "guide" + "/" + "setting-up-a-client.md"
    ensures PageMoves(Join(["guide", "setting-up-a-client.md"]), Join(["use", "setting-up-a-client.md"]))
  {
    JoinTwo("guide", "setting-up-a-client.md");
    JoinTwo("use", "setting-up-a-client.md");
    hide Join;
  }

  lemma {:induction false} GlossaryMove()
    ensures Whole(["glossary.md"]) && Join(["glossary.md"]) == "glossary.md"
    ensures PageMoves(Join(["glossary.md"]), Join(["reference", "glossary.md"]))
  {
    JoinOne("glossary.md");
    JoinTwo("reference", "glossary.md");
    hide Join;
  }

  lemma {:induction false} EngineersMove()
    ensures Whole(["for-engineers.md"]) && Join(["for-engineers.md"]) == "for-engineers.md"
    ensures PageMoves(Join(["for-engineers.md"]), Join(["understand", "index.md"]))
  {
    JoinOne("for-engineers.md");
    JoinTwo("understand", "index.md");
    hide Join;
  }

  lemma {:induction false} EndpointsMove()
    ensures Whole(["reference", "api-endpoints.md"]) && Join(["reference", "api-endpoints.md"]) ==
      "reference" + "/" + "api-endpoints.md"
    ensures PageMoves(Join(["reference", "api-endpoints.md"]), Join(["reference", "api", "index.md"]))
  {
    JoinTwo("reference", "api-endpoints.md");
    JoinThree("reference", "api", "index.md");
    hide Join;
  }

  lemma {:induction false} LocalMove()
    ensures Whole(["operations", "local-development.md"]) && Join(["operations", "local-development.md"]) ==
      "operations" + "/" + "local-development.md"
    ensures PageMoves(Join(["operations", "local-development.md"]), Join(["build", "develop", "local-development.md"]))
  {
    JoinTwo("operations", "local-development.md");
    JoinThree("build", "develop", "local-development.md");
    hide Join;
  }

  lemma {:induction false} BranchesMove()
    ensures Whole(["operations", "branches-and-merging.md"]) &&
      Join(["operations", "branches-and-merging.md"]) == "operations" + "/" + "branches-and-merging.md"
    ensures PageMoves(Join(["operations", "branches-and-merging.md"]),
      Join(["build", "develop", "branches-and-merging.md"]))
  {
    JoinTwo("operations", "branches-and-merging.md");
    JoinThree("build", "develop", "branches-and-merging.md");
    hide Join;
  }

  lemma {:induction false} RunbooksMove()
    ensures Whole(["operations", "runbooks.md"]) && Join(["operations", "runbooks.md"]) ==
      "operations" + "/" + "runbooks.md"
    ensures PageMoves(Join(["operations", "runbooks.md"]), Join(["build", "operate", "runbooks.md"]))
  {
    JoinTwo("operations", "runbooks.md");
    JoinThree("build", "operate", "runbooks.md");
    hide Join;
  }

  lemma {:induction false} OnboardingMove()
    ensures Whole(["operations", "onboarding-a-client.md"]) &&
      Join(["operations", "onboarding-a-client.md"]) == "operations" + "/" + "onboarding-a-client.md"
    ensures PageMoves(Join(["operations", "onboarding-a-client.md"]),
      Join(["build", "operate", "onboarding-a-client.md"]))
  {
    JoinTwo("operations", "onboarding-a-client.md");
    JoinThree("build", "operate", "onboarding-a-client.md");
    hide Join;
  }

  lemma {:induction false} BoxMove()
    ensures Whole(["operations", "first-time-box-setup.md"]) &&
      Join(["operations", "first-time-box-setup.md"]) == "operations" + "/" + "first-time-box-setup.md"
    ensures PageMoves(Join(["operations", "first-time-box-setup.md"]),
      Join(["build", "operate", "first-time-box-setup.md"]))
  {
    JoinTwo("operations", "first-time-box-setup.md");
    JoinThree("build", "operate", "first-time-box-setup.md");
    hide Join;
  }

  lemma {:induction false} DbaMove()
    ensures Whole(["operations", "dba-guide.md"]) && Join(["operations", "dba-guide.md"]) ==
      "operations" + "/" + "dba-guide.md"
    ensures PageMoves(Join(["operations", "dba-guide.md"]), Join(["build", "operate", "dba-guide.md"]))
  {
    JoinTwo("operations", "dba-guide.md");
    JoinThree("build", "operate", "dba-guide.md");
    hide Join;
  }

  lemma {:induction false} GuideTexts(p: Path)
    requires p != [] && Whole(p)
    ensures p in GUIDE_MOVES ==> GUIDE_MOVES[p] != [] && PageMoves(Join(p), Join(GUIDE_MOVES[p]))
    ensures p !in GUIDE_MOVES ==>
      && Join(p) != "guide" + "/" + "setting-up-a-client.md"
      && Join(p) != "glossary.md"
      && Join(p) != "for-engineers.md"
      && Join(p) != "reference" + "/" + "api-endpoints.md"
  {
    hide Join, Whole, PageMoves;
    SetupMove();
    KeyText(p, ["guide", "setting-up-a-client.md"]);
    GlossaryMove();
    KeyText(p, ["glossary.md"]);
    EngineersMove();
    KeyText(p, ["for-engineers.md"]);
    EndpointsMove();
    KeyText(p, ["reference", "api-endpoints.md"]);
  }

  lemma {:induction false} DevelopTexts(p: Path)
    requires p != [] && Whole(p)
    ensures p in DEVELOP_MOVES ==> DEVELOP_MOVES[p] != [] && PageMoves(Join(p), Join(DEVELOP_MOVES[p]))
    ensures p !in DEVELOP_MOVES ==>
      && Join(p) != "operations" + "/" + "local-development.md"
      && Join(p) != "operations" + "/" + "branches-and-merging.md"
  {
    hide Join, Whole, PageMoves;
    LocalMove();
    KeyText(p, ["operations", "local-development.md"]);
    BranchesMove();
    KeyText(p, ["operations", "branches-and-merging.md"]);
  }

  lemma {:induction false} OperateTexts(p: Path)
    requires p != [] && Whole(p)
    ensures p in OPERATE_MOVES ==> OPERATE_MOVES[p] != [] && PageMoves(Join(p), Join(OPERATE_MOVES[p]))
    ensures p !in OPERATE_MOVES ==>
      && Join(p) != "operations" + "/" + "runbooks.md"
      && Join(p) != "operations" + "/" + "onboarding-a-client.md"
      && Join(p) != "operations" + "/" + "first-time-box-setup.md"
      && Join(p) != "operations" + "/" + "dba-guide.md"
  {
    hide Join, Whole, PageMoves;
    RunbooksMove();
    KeyText(p, ["operations", "runbooks.md"]);
    OnboardingMove();
    KeyText(p, ["operations", "onboarding-a-client.md"]);
    BoxMove();
    KeyText(p, ["operations", "first-time-box-setup.md"]);
    DbaMove();
    KeyText(p, ["operations", "dba-guide.md"]);
  }

  lemma {:induction false} KeyText(p: Path, key: Path)
    requires p != [] && Whole(p) && key != []
    ensures Whole(key) ==> (Join(p) == Join(key) <==> p == key)
  {
    if Whole(key) { JoinIsInjective(p, key); }
  }

  /** Being under a folder is beginning with its text and a slash. */
  lemma {:induction false} UnderText(p: Path, f: Path)
    requires p != [] && f != [] && Whole(p) && Whole(f)
    ensures Under(p, f) <==> Join(f) + "/" <= Join(p)
    ensures Under(p, f) ==> Join(p)[|Join(f)| + 1..] == Join(p[|f|..])
  {
    var text := Join(f) + "/";
    if Under(p, f) {
      assert p == f + p[|f|..];
      JoinAppend(f, p[|f|..]);
      assert Join(p) == text + Join(p[|f|..]);
    }
    if text <= Join(p) {
      var rest := Join(p)[|text|..];
      assert Join(p) == text + rest;
      JoinSplit(rest);
      SplitIsWhole(rest);
      var q := f + Split(rest);
      JoinAppend(f, Split(rest));
      JoinIsInjective(p, q);
      assert q[..|f|] == f;
    }
    hide Join, Split;
  }

  lemma {:induction false} FolderText(p: Path, f: Path, g: Path)
    requires p != [] && f != [] && g != [] && Whole(p) && Whole(f) && Under(p, f)
    ensures |Join(f)| < |Join(p)| && Join(g + p[|f|..]) == Join(g) + "/" + Join(p)[|Join(f)| + 1..]
  {
    UnderText(p, f);
    JoinAppend(g, p[|f|..]);
  }

  lemma {:induction false} FolderNameTexts()
    ensures Join(["guide", "customize"]) == "guide" + "/" + "customize" && |Join(["guide", "customize"])| == 15
    ensures Join(["use", "customize"]) == "use" + "/" + "customize"
    ensures Join(["understand", "architecture"]) == "understand" + "/" + "architecture"
    ensures Join(["understand", "subsystems"]) == "understand" + "/" + "subsystems"
    ensures Join(["understand", "components"]) == "understand" + "/" + "components"
    ensures Join(["architecture"]) == "architecture" && Join(["subsystems"]) == "subsystems"
    ensures Join(["components"]) == "components"
    ensures Whole(["guide", "customize"]) && Whole(["architecture"]) && Whole(["subsystems"]) && Whole(["components"])
  {
    JoinTwo("guide", "customize");
    JoinTwo("use", "customize");
    JoinTwo("understand", "architecture");
    JoinTwo("understand", "subsystems");
    JoinTwo("understand", "components");
    JoinOne("architecture");
    JoinOne("subsystems");
    JoinOne("components");
    hide Join;
  }

  lemma {:induction false} GuideFolder(p: Path)
    requires p != [] && Whole(p)
    requires Under(p, ["guide", "customize"])
    ensures FolderMoves(Join(p), Join(["use", "customize"] + p[2..]))
  {
    hide Join, Under, Whole;
    FolderNameTexts();
    UnderText(p, ["guide", "customize"]);
    FolderText(p, ["guide", "customize"], ["use", "customize"]);
  }

  lemma {:induction false} ArchitectureFolder(p: Path)
    requires p != [] && Whole(p)
    requires !Under(p, ["guide", "customize"]) && Under(p, ["architecture"])
    ensures FolderMoves(Join(p), Join(["understand", "architecture"] + p[1..]))
  {
    hide Join, Under, Whole;
    FolderNameTexts();
    UnderText(p, ["guide", "customize"]);
    UnderText(p, ["architecture"]);
    FolderText(p, ["architecture"], ["understand", "architecture"]);
  }

  lemma {:induction false} SubsystemsFolder(p: Path)
    requires p != [] && Whole(p)
    requires !Under(p, ["guide", "customize"]) && !Under(p, ["architecture"]) && Under(p, ["subsystems"])
    ensures FolderMoves(Join(p), Join(["understand", "subsystems"] + p[1..]))
  {
    hide Join, Under, Whole;
    FolderNameTexts();
    UnderText(p, ["guide", "customize"]);
    UnderText(p, ["architecture"]);
    UnderText(p, ["subsystems"]);
    FolderText(p, ["subsystems"], ["understand", "subsystems"]);
  }

  lemma {:induction false} ComponentsFolder(p: Path)
    requires p != [] && Whole(p)
    requires !Under(p, ["guide", "customize"]) && !Under(p, ["architecture"]) && !Under(p, ["subsystems"]) &&
      Under(p, ["components"])
    ensures FolderMoves(Join(p), Join(["understand", "components"] + p[1..]))
  {
    hide Join, Under, Whole;
    FolderNameTexts();
    UnderText(p, ["guide", "customize"]);
    UnderText(p, ["architecture"]);
    UnderText(p, ["subsystems"]);
    UnderText(p, ["components"]);
    FolderText(p, ["components"], ["understand", "components"]);
  }

  lemma {:induction false} NoFolder(p: Path)
    requires p != [] && Whole(p)
    requires !Under(p, ["guide", "customize"]) && !Under(p, ["architecture"]) && !Under(p, ["subsystems"]) &&
      !Under(p, ["components"])
    ensures FolderMoves(Join(p), Join(p))
  {
    hide Join, Under, Whole;
    FolderNameTexts();
    UnderText(p, ["guide", "customize"]);
    UnderText(p, ["architecture"]);
    UnderText(p, ["subsystems"]);
    UnderText(p, ["components"]);
  }

  lemma {:induction false} FolderTexts(p: Path)
    requires p != [] && Whole(p)
    ensures FolderMoved(p, 0) != [] && FolderMoves(Join(p), Join(FolderMoved(p, 0)))
  {
    FolderMovedIs(p);
    hide Join, FolderMoved, FolderMoves, Whole;
    if Under(p, ["guide", "customize"]) { GuideFolder(p); }
    else if Under(p, ["architecture"]) { ArchitectureFolder(p); }
    else if Under(p, ["subsystems"]) { SubsystemsFolder(p); }
    else if Under(p, ["components"]) { ComponentsFolder(p); }
    else { NoFolder(p); }
  }

  lemma {:induction false} FolderMovedIs(p: Path)
    ensures FolderMoved(p, 0) ==
      if Under(p, ["guide", "customize"]) then ["use", "customize"] + p[2..]
      else if Under(p, ["architecture"]) then ["understand", "architecture"] + p[1..]
      else if Under(p, ["subsystems"]) then ["understand", "subsystems"] + p[1..]
      else if Under(p, ["components"]) then ["understand", "components"] + p[1..]
      else p
  {
    assert FolderMoved(p, 4) == p;
    assert FolderMoved(p, 3) == if Under(p, ["components"]) then ["understand", "components"] + p[1..] else p;
  }

  ghost predicate HasItsOwnMove(page: string) { exists to :: PageMoves(page, to) }

  lemma {:induction false} NoMoveOfItsOwn(p: Path)
    requires p != [] && Whole(p) && p !in FILE_MOVES
    ensures !HasItsOwnMove(Join(p))
  {
    GuideTexts(p);
    DevelopTexts(p);
    OperateTexts(p);
    hide Join, Whole;
  }

  lemma {:induction false} MovesOnItsOwn(p: Path)
    requires p in FILE_MOVES && p != [] && Whole(p)
    ensures FILE_MOVES[p] != [] && PageMoves(Join(p), Join(FILE_MOVES[p]))
  {
    hide Join, Whole, PageMoves, GUIDE_MOVES, DEVELOP_MOVES, OPERATE_MOVES;
    GuideTexts(p);
    DevelopTexts(p);
    OperateTexts(p);
  }

  /** The text of a moved path is the old text's entry in the table of pages, or else in the table of folders, in which
      the first that fits counts. */
  lemma {:induction false} NewPathMoves(p: Path)
    requires p != [] && Whole(p)
    ensures NewPath(p) != []
    ensures
      if HasItsOwnMove(Join(p)) then PageMoves(Join(p), Join(NewPath(p))) else FolderMoves(Join(p), Join(NewPath(p)))
  {
    hide Join, Whole, FolderMoved, FolderMoves, PageMoves;
    if p in FILE_MOVES {
      MovesOnItsOwn(p);
    } else {
      NoMoveOfItsOwn(p);
      FolderTexts(p);
    }
  }

  lemma {:induction false} NamesAbove(p: Path, u: nat)
    requires u <= |p|
    ensures Names(p[u..]) <==> forall k :: u <= k < |p| ==> Name(p[k])
  {
    if Names(p[u..]) {
      forall k | u <= k < |p| ensures Name(p[k]) { assert p[k] == p[u..][k - u]; }
    }
  }

  lemma {:induction false} PushIsNormal(stack: Path, seg: string, rooted: bool)
    requires Normal(stack) && '/' !in seg
    ensures Normal(Push(stack, seg, rooted))
  {
    var r := Push(stack, seg, rooted);
    var u := Climb(stack);
    assert forall k :: 0 <= k < u ==> stack[k] == Ups(u)[k];
    NamesAbove(stack, u);
    if seg == ".." && r == stack + [seg] && stack != [] {
      assert u == |stack|;
      ClimbIs(r, u + 1);
    } else if seg == ".." && stack == [] && !rooted {
      ClimbIs(r, 1);
    } else if r != stack {
      ClimbIs(r, u);
    }
  }

  lemma {:induction false} NormIsNormal(stack: Path, p: Path, rooted: bool)
    requires Normal(stack) && Whole(p)
    ensures Normal(NormFrom(stack, p, rooted))
    decreases |p|
  {
    if p != [] {
      PushIsNormal(stack, p[0], rooted);
      NormIsNormal(Push(stack, p[0], rooted), p[1..], rooted);
    }
  }

  lemma {:induction false} NormStep(stack: Path, p: Path, rooted: bool)
    ensures p == [] ==> NormFrom(stack, p, rooted) == stack
    ensures p != [] ==> NormFrom(stack, p, rooted) == NormFrom(Push(stack, p[0], rooted), p[1..], rooted)
  {
  }

  lemma {:induction false} NormAppend(stack: Path, a: Path, b: Path, rooted: bool)
    ensures NormFrom(stack, a + b, rooted) == NormFrom(NormFrom(stack, a, rooted), b, rooted)
    decreases |a|
  {
    hide *;
    NormStep(stack, a, rooted);
    if a == [] {
      assert a + b == b;
    } else {
      NormAppend(Push(stack, a[0], rooted), a[1..], b, rooted);
      NormStep(stack, a + b, rooted);
      assert (a + b)[1..] == a[1..] + b && (a + b)[0] == a[0];
    }
  }

  lemma {:induction false} NormNames(stack: Path, p: Path, rooted: bool)
    requires Names(p)
    ensures NormFrom(stack, p, rooted) == stack + p
    decreases |p|
  {
    if p != [] {
      NormNames(stack + [p[0]], p[1..], rooted);
      assert stack + [p[0]] + p[1..] == stack + p;
    }
  }

  /** Steps up take names off the stack; below it they pile up, or vanish at the root. */
  lemma {:induction false} NormUps(stack: Path, n: nat, rooted: bool)
    requires Names(stack)
    ensures NormFrom(stack, Ups(n), rooted) ==
            if n <= |stack| then stack[..|stack| - n] else if rooted then [] else Ups(n - |stack|)
    decreases n
  {
    if n > 0 {
      assert Ups(n)[1..] == Ups(n - 1);
      if stack == [] && !rooted {
        MoreUps(1, n - 1);
        assert Ups(1) == [".."];
        assert Ups(1) + Ups(n - 1) == Ups(n);
      } else {
        NormUps(Push(stack, "..", rooted), n - 1, rooted);
      }
    }
  }

  lemma {:induction false} MoreUps(have: nat, n: nat)
    requires have > 0
    ensures NormFrom(Ups(have), Ups(n), false) == Ups(have) + Ups(n)
    decreases n
  {
    if n > 0 {
      assert Ups(n)[1..] == Ups(n - 1);
      assert Ups(have) + [".."] == Ups(have + 1);
      MoreUps(have + 1, n - 1);
      assert Ups(have + 1) + Ups(n - 1) == Ups(have) + Ups(n);
    }
  }

  /** Walking n steps up and then down named segments. */
  lemma {:induction false} Walk(stack: Path, n: nat, down: Path, rooted: bool)
    requires Names(stack) && Names(down)
    ensures NormFrom(stack, Ups(n) + down, rooted) ==
            (if n <= |stack| then stack[..|stack| - n] else if rooted then [] else Ups(n - |stack|)) + down
  {
    NormAppend(stack, Ups(n), down, rooted);
    NormUps(stack, n, rooted);
    NormNames(NormFrom(stack, Ups(n), rooted), down, rooted);
  }

  lemma {:induction false} AbsIs(cwd: Path, p: Path)
    requires Names(cwd) && Normal(p)
    ensures Abs(cwd, p) == (if Climb(p) <= |cwd| then cwd[..|cwd| - Climb(p)] else []) + p[Climb(p)..]
    ensures Names(Abs(cwd, p))
  {
    var u := Climb(p);
    assert p == Ups(u) + p[u..];
    Walk(cwd, u, p[u..], true);
  }

  // ---- the rewritten link ----

  /** A target above the tree that climbs past the root, or climbs and comes straight back down the working
      directory. */
  predicate Reenters(cwd: Path, p: Path) {
    Climb(p) > 0 && (Climb(p) > |cwd| || (Climb(p) < |p| && p[Climb(p)] == cwd[|cwd| - Climb(p)]))
  }

  /** The relative path, resolved from its directory: the steps up that leave the tree, then what is left. */
  function Landing(cwd: Path, b: Path, i: nat): Path
    requires i <= |b|
  {
    if i >= |cwd| then b[|cwd|..] else Ups(|cwd| - i) + b[i..]
  }

  lemma {:induction false} LandingForm(cwd: Path, dir: Path, b: Path, i: nat)
    requires i <= |cwd| + |dir| && i <= |b| && (cwd + dir)[..i] == b[..i]
    ensures var n := |cwd| + |dir| - i;
      (if n <= |dir| then dir[..|dir| - n] else Ups(n - |dir|)) + b[i..] == Landing(cwd, b, i)
  {
    if i >= |cwd| {
      assert dir[..i - |cwd|] == (cwd + dir)[..i][|cwd|..] == b[|cwd|..i];
    }
  }

  lemma {:induction false} WalkLands(cwd: Path, dir: Path, b: Path, i: nat)
    requires Names(dir) && Names(b) && i <= |cwd| + |dir| && i <= |b| && (cwd + dir)[..i] == b[..i]
    ensures NormFrom(dir, Ups(|cwd| + |dir| - i) + b[i..], false) == Landing(cwd, b, i)
  {
    hide *;
    TailNames(b, i);
    Walk(dir, |cwd| + |dir| - i, b[i..], false);
    LandingForm(cwd, dir, b, i);
  }

  lemma {:induction false} LandsThere(cwd: Path, dir: Path, p: Path)
    requires Names(cwd) && Names(dir) && Normal(p)
    ensures var b := Abs(cwd, p);
      NormFrom([], dir + RelPath(cwd, p, dir), false) == Landing(cwd, b, Common(cwd + dir, b))
  {
    hide *;
    RelPathIs(cwd, p, dir);
    AbsIs(cwd, p);
    ResolveFrom(dir, RelPath(cwd, p, dir));
    WalkLands(cwd, dir, Abs(cwd, p), Common(cwd + dir, Abs(cwd, p)));
  }

  lemma {:induction false} ResolveFrom(dir: Path, rel: Path)
    requires Names(dir)
    ensures NormFrom([], dir + rel, false) == NormFrom(dir, rel, false)
  {
    NormAppend([], dir, rel, false);
    NormNames([], dir, false);
    assert [] + dir == dir;
  }

  lemma {:induction false} TailNames(p: Path, i: nat)
    requires Names(p) && i <= |p|
    ensures Names(p[i..])
  {
  }

  lemma {:induction false} RelPathIs(cwd: Path, p: Path, dir: Path)
    requires Names(cwd) && Names(dir)
    ensures var b := Abs(cwd, p);
      var i := Common(cwd + dir, b);
      RelPath(cwd, p, dir) == Ups(|cwd| + |dir| - i) + b[i..]
  {
    NormNames(cwd, dir, true);
  }

  lemma {:induction false} ClimbOfLanding(cwd: Path, b: Path, i: nat)
    requires Names(b) && i <= |b|
    ensures Climb(Landing(cwd, b, i)) == if i >= |cwd| then 0 else |cwd| - i
  {
    ClimbIs(Landing(cwd, b, i), if i >= |cwd| then 0 else |cwd| - i);
  }

  lemma {:induction false} CommonReaches(a: Path, b: Path, m: nat)
    requires m <= |a| && m <= |b| && a[..m] == b[..m]
    ensures Common(a, b) >= m
  {
    forall k | 0 <= k < m ensures a[k] == b[k] { assert a[..m][k] == b[..m][k]; }
  }

  lemma {:induction false} CommonIff(cwd: Path, dir: Path, p: Path, i: nat)
    requires Names(cwd) && Normal(p)
    requires i == Common(cwd + dir, Abs(cwd, p))
    ensures (if i >= |cwd| then 0 else |cwd| - i) == Climb(p) <==> !Reenters(cwd, p)
  {
    var u := Climb(p);
    AbsIs(cwd, p);
    hide Abs, Names, Normal, Climb;
    var a, b := cwd + dir, Abs(cwd, p);
    assert a[..i] == b[..i];
    if u <= |cwd| {
      var m := |cwd| - u;
      assert a[..m] == b[..m];
      CommonReaches(a, b, m);
      assert m < |b| ==> b[m] == p[u];
      assert i > m ==> a[..i][m] == b[..i][m];
    }
  }

  /** Resolving a relative path from the directory it was made relative to gives back the path, unless it re-enters. */
  lemma {:induction false} RelPathResolvesIff(cwd: Path, p: Path, dir: Path)
    requires Names(cwd) && Names(dir) && Normal(p)
    ensures NormFrom([], dir + RelPath(cwd, p, dir), false) == p <==> !Reenters(cwd, p)
  {
    var b := Abs(cwd, p);
    var i := Common(cwd + dir, b);
    LandsThere(cwd, dir, p);
    AbsIs(cwd, p);
    ClimbOfLanding(cwd, b, i);
    CommonIff(cwd, dir, p, i);
    if !Reenters(cwd, p) { LandingIs(cwd, p, b, i); }
    hide NormFrom, RelPath, Common, Abs, Names, Normal, Climb, Reenters, Landing;
  }

  lemma {:induction false} LandingIs(cwd: Path, p: Path, b: Path, i: nat)
    requires i <= |b| && (if i >= |cwd| then 0 else |cwd| - i) == Climb(p)
    requires b == (if Climb(p) <= |cwd| then cwd[..|cwd| - Climb(p)] else []) + p[Climb(p)..]
    ensures Landing(cwd, b, i) == p
  {
    var u := Climb(p);
    assert p == Ups(u) + p[u..];
    assert b[|cwd| - u..] == p[u..];
  }

  // ---- the text of the rewritten link ----

  predicate HashFree(p: Path) { forall k :: 0 <= k < |p| ==> '#' !in p[k] }

  lemma {:induction false} HashInJoin(p: Path)
    requires |p| > 0
    ensures '#' in Join(p) <==> !HashFree(p)
  {
    if |p| > 1 {
      HashInJoin(p[1..]);
      assert HashFree(p) <==> '#' !in p[0] && HashFree(p[1..]) by {
        if HashFree(p[1..]) { assert forall k :: 1 <= k < |p| ==> p[k] == p[1..][k - 1]; }
      }
      var head := p[0] + "/";
      assert Join(p) == head + Join(p[1..]);
    }
  }

  lemma {:induction false} HashSkips(a: string, b: string)
    requires '#' !in a
    ensures Hash(a + b) == |a| + Hash(b)
  {
    if a == "" {
      assert a + b == b;
    } else {
      HashSkips(a[1..], b);
      assert (a + b)[1..] == a[1..] + b;
    }
  }

  lemma {:induction false} HashOf(a: string, frag: string)
    requires frag == "" || frag[0] == '#'
    ensures '#' !in a ==> PathPart(a + frag) == a && FragPart(a + frag) == frag
    ensures '#' in a ==> |FragPart(a + frag)| > |frag|
  {
    if '#' !in a {
      HashSkips(a, frag);
    } else {
      var k :| 0 <= k < |a| && a[k] == '#';
      assert (a + frag)[k] == '#';
    }
  }

  lemma {:induction false} ResolveText(page: Path, rel: Path)
    requires page != [] && Whole(rel)
    ensures Resolve(page, TextOf(rel)) == NormFrom([], DirName(page) + rel, false)
  {
    if rel == [] {
      SplitFirst(".", "");
      assert Split(".") == ["."] by { assert "." + "" == "."; }
      NormAppend([], DirName(page), ["."], false);
      assert DirName(page) + [] == DirName(page);
    } else {
      SplitJoin(rel);
    }
  }

  lemma {:induction false} RelPathIsWhole(cwd: Path, p: Path, dir: Path)
    requires Names(cwd) && Normal(p)
    ensures Whole(RelPath(cwd, p, dir))
  {
    AbsIs(cwd, p);
    hide Abs, Common;
  }

  // ---- the moves ----

  /** Moves keep a path normal and never touch one that climbs out of the tree. */
  lemma {:induction false} NewPathStays(p: Path)
    requires Normal(p)
    ensures Normal(NewPath(p)) && Climb(NewPath(p)) == Climb(p)
    ensures Climb(p) > 0 ==> NewPath(p) == p
    ensures p != [] ==> NewPath(p) != []
  {
    if Climb(p) == 0 {
      assert p[0..] == p;
      MovedNames(p);
      NamesDoNotClimb(NewPath(p));
    } else {
      assert p[..Climb(p)][0] == "..";
      ClimbingIsNotMoved(p);
    }
  }

  lemma {:induction false} NamesDoNotClimb(p: Path)
    requires Names(p)
    ensures Climb(p) == 0 && Normal(p)
  {
    assert p[0..] == p;
  }

  lemma {:induction false} MovesAreInside()
    ensures forall k :: k in FILE_MOVES ==> k[0] != ".."
    ensures forall i :: 0 <= i < |FOLDER_MOVES| ==> FOLDER_MOVES[i].0 != [] && FOLDER_MOVES[i].0[0] != ".."
  {
    assert forall k :: k in GUIDE_MOVES ==> k[0] != "..";
    assert forall k :: k in DEVELOP_MOVES ==> k[0] != "..";
    assert forall k :: k in OPERATE_MOVES ==> k[0] != "..";
    hide GUIDE_MOVES, DEVELOP_MOVES, OPERATE_MOVES;
  }

  lemma {:induction false} ClimbingIsNotMoved(p: Path)
    requires p != [] && p[0] == ".."
    ensures NewPath(p) == p
  {
    MovesAreInside();
    hide FILE_MOVES, FOLDER_MOVES;
    NotUnder(p, 0);
  }

  lemma {:induction false} NotUnder(p: Path, i: nat)
    requires p != [] && i <= |FOLDER_MOVES| && forall k :: 0 <= k < |FOLDER_MOVES| ==>
      FOLDER_MOVES[k].0 != [] && FOLDER_MOVES[k].0[0] != p[0]
    ensures FolderMoved(p, i) == p
    decreases |FOLDER_MOVES| - i
  {
    if i < |FOLDER_MOVES| {
      NotUnder(p, i + 1);
      hide FOLDER_MOVES;
    }
  }

  predicate Plain(s: string) { Name(s) && '#' !in s }
  predicate PageNames(p: Path) { p != [] && forall k :: 0 <= k < |p| ==> Plain(p[k]) }

  lemma {:induction false} GuidePages()
    ensures Plain("setting-up-a-client.md") && Plain("glossary.md")
  {
  }

  lemma {:induction false} GuideFolders()
    ensures Plain("use") && Plain("reference") && Plain("understand") && Plain("api") && Plain("index.md")
  {
  }

  lemma {:induction false} GuideMovesAreNames()
    ensures forall k :: k in GUIDE_MOVES ==> PageNames(GUIDE_MOVES[k])
  {
    GuidePages();
    GuideFolders();
    hide Plain;
  }

  lemma {:induction false} LocalPage()
    ensures Plain("local-development.md")
  {
  }

  lemma {:induction false} BranchesPage()
    ensures Plain("branches-and-merging.md")
  {
  }

  lemma {:induction false} BuildFolders()
    ensures Plain("build") && Plain("develop") && Plain("operate")
  {
  }

  lemma {:induction false} DevelopMovesAreNames()
    ensures forall k :: k in DEVELOP_MOVES ==> PageNames(DEVELOP_MOVES[k])
  {
    LocalPage();
    BranchesPage();
    BuildFolders();
    hide Plain;
  }

  lemma {:induction false} OperatePages()
    ensures Plain("runbooks.md") && Plain("dba-guide.md")
  {
  }

  lemma {:induction false} OnboardingPage()
    ensures Plain("onboarding-a-client.md")
  {
  }

  lemma {:induction false} SetupPage()
    ensures Plain("first-time-box-setup.md")
  {
  }

  lemma {:induction false} OperateMovesAreNames()
    ensures forall k :: k in OPERATE_MOVES ==> PageNames(OPERATE_MOVES[k])
  {
    OperatePages();
    OnboardingPage();
    SetupPage();
    BuildFolders();
    hide Plain;
  }

  lemma {:induction false} FileMovesAreNames()
    ensures forall k :: k in FILE_MOVES ==> PageNames(FILE_MOVES[k])
  {
    GuideMovesAreNames();
    DevelopMovesAreNames();
    OperateMovesAreNames();
    hide PageNames, GUIDE_MOVES, DEVELOP_MOVES, OPERATE_MOVES;
  }

  lemma {:induction false} FolderMovesAreNames()
    ensures forall i :: 0 <= i < |FOLDER_MOVES| ==>
      PageNames(FOLDER_MOVES[i].1)
  {
  }

  lemma {:induction false} MovedNames(p: Path)
    requires Names(p)
    ensures Names(NewPath(p)) && (p != [] ==> NewPath(p) != []) && (HashFree(p) ==> HashFree(NewPath(p)))
  {
    FileMovesAreNames();
    FolderMovesAreNames();
    FolderNames(p, 0);
    hide Names, HashFree, FolderMoved, FILE_MOVES, FOLDER_MOVES;
  }

  lemma {:induction false} FolderNames(p: Path, i: nat)
    requires Names(p) && i <= |FOLDER_MOVES|
    requires forall k :: 0 <= k < |FOLDER_MOVES| ==>
      PageNames(FOLDER_MOVES[k].1)
    ensures Names(FolderMoved(p, i)) && (p != [] ==> FolderMoved(p, i) != []) &&
      (HashFree(p) ==> HashFree(FolderMoved(p, i)))
    decreases |FOLDER_MOVES| - i
  {
    if i < |FOLDER_MOVES| {
      FolderNames(p, i + 1);
      hide FOLDER_MOVES, Name;
    }
  }

  // ---- links after the move ----

  /** Where a link on a page leads, in the new tree. */
  function Destination(target: string, oldPage: Path): Path
    requires oldPage != []
  {
    NewPath(Resolve(oldPage, PathPart(target)))
  }

  lemma {:induction false} DestinationIsNormal(target: string, oldPage: Path)
    requires oldPage != [] && Names(oldPage)
    ensures Normal(Resolve(oldPage, PathPart(target))) && Normal(Destination(target, oldPage))
  {
    var link := Split(PathPart(target));
    SplitIsWhole(PathPart(target));
    NamesDoNotClimb([]);
    NormIsNormal([], DirName(oldPage) + link, false);
    NewPathStays(Resolve(oldPage, PathPart(target)));
  }

  lemma {:induction false} CommonStep(a: Path, b: Path)
    requires a != [] && b != [] && a[0] == b[0]
    ensures Common(a, b) == 1 + Common(a[1..], b[1..])
  {
  }

  lemma {:induction false} CommonShift(front: Path, a: Path, b: Path)
    ensures Common(front + a, front + b) == |front| + Common(a, b)
  {
    hide Common;
    if front == [] {
      assert front + a == a && front + b == b;
    } else {
      CommonShift(front[1..], a, b);
      CommonStep(front + a, front + b);
      assert (front + a)[1..] == front[1..] + a && (front + b)[1..] == front[1..] + b;
    }
  }

  lemma {:induction false} HashFreeParts(a: Path, b: Path)
    ensures HashFree(a + b) <==> HashFree(a) && HashFree(b)
  {
    if HashFree(a + b) {
      assert forall k :: 0 <= k < |a| ==> a[k] == (a + b)[k];
      assert forall k :: 0 <= k < |b| ==> b[k] == (a + b)[|a| + k];
    }
  }

  lemma {:induction false} NothingInCommon(dir: Path, p: Path)
    requires Names(dir) && Climb(p) > 0
    ensures Common(dir, p) == 0
  {
    assert p[..Climb(p)][0] == "..";
  }

  lemma {:induction false} EndInside(cwd: Path, p: Path, dir: Path, b: Path, i: nat)
    requires b == cwd + p && i == Common(cwd + dir, b)
    ensures i <= |b| && b[i..] == p[Common(dir, p)..]
  {
    CommonShift(cwd, dir, p);
    hide Common;
  }

  lemma {:induction false} EndAbove(cwd: Path, p: Path, b: Path, u: nat)
    requires u <= |p| && u <= |cwd| && p[..u] == Ups(u) && b == cwd[..|cwd| - u] + p[u..]
    ensures HashFree(b[|cwd| - u..]) <==> HashFree(p)
  {
    hide HashFree, Ups;
    UpsAreHashFree(u);
    HashFreeParts(Ups(u), p[u..]);
    assert b[|cwd| - u..] == p[u..];
    assert p == p[..u] + p[u..];
  }

  lemma {:induction false} NotReentering(cwd: Path, p: Path)
    requires !Reenters(cwd, p)
    ensures Climb(p) > 0 ==> Climb(p) <= |cwd|
  {
  }

  /** What the relative path names is the part of the target below the folder it has in common with the page. */
  lemma {:induction false} RelPathEnd(cwd: Path, p: Path, dir: Path)
    requires Names(cwd) && Names(dir) && Normal(p) && !Reenters(cwd, p)
    ensures var b := Abs(cwd, p);
      var i := Common(cwd + dir, b);
      HashFree(b[i..]) <==> HashFree(p[Common(dir, p)..])
  {
    hide *;
    var u, b := Climb(p), Abs(cwd, p);
    var i := Common(cwd + dir, b);
    AbsIs(cwd, p);
    CommonIff(cwd, dir, p, i);
    NotReentering(cwd, p);
    assert p[0..] == p;
    if u == 0 {
      assert cwd[..|cwd|] == cwd;
      EndInside(cwd, p, dir, b, i);
    } else {
      EndAbove(cwd, p, b, u);
      NothingInCommon(dir, p);
    }
  }

  lemma {:induction false} RelPathHashFreeIff(cwd: Path, p: Path, dir: Path)
    requires Names(cwd) && Names(dir) && Normal(p) && !Reenters(cwd, p)
    ensures HashFree(RelPath(cwd, p, dir)) <==> HashFree(p[Common(dir, p)..])
  {
    hide *;
    RelPathIs(cwd, p, dir);
    var b := Abs(cwd, p);
    var i := Common(cwd + dir, b);
    RelPathEnd(cwd, p, dir);
    UpsAreHashFree(|cwd| + |dir| - i);
    HashFreeParts(Ups(|cwd| + |dir| - i), b[i..]);
  }

  lemma {:induction false} UpsAreHashFree(n: nat)
    ensures HashFree(Ups(n))
  {
  }

  /** A rewritten link resolves, from the page's new place, to the moved target, with its fragment kept, exactly when
      the target does not leave the tree and come back through the working directory's own name (or climb past the
      root), and no name of the target below the folder it shares with the page has a '#'. */
  lemma {:induction false} RewrittenLinkResolvesIff(cwd: Path, target: string, oldPage: Path, newPage: Path)
    requires Rewritable(target) && Names(cwd) && oldPage != [] && Names(oldPage) && newPage != [] && Names(newPage)
    ensures var dest := Destination(target, oldPage);
      var fixed := Fix(cwd, target, oldPage, newPage);
      Resolve(newPage, PathPart(fixed)) == dest && FragPart(fixed) == FragPart(target) <==>
      !Reenters(cwd, dest) && HashFree(dest[Common(DirName(newPage), dest)..])
  {
    var dest := Destination(target, oldPage);
    DestinationIsNormal(target, oldPage);
    var dir := DirName(newPage);
    var rel := RelPath(cwd, dest, dir);
    RelPathIsWhole(cwd, dest, dir);
    ResolveText(newPage, rel);
    RelPathResolvesIff(cwd, dest, dir);
    if !Reenters(cwd, dest) { RelPathHashFreeIff(cwd, dest, dir); }
    if rel != [] { HashInJoin(rel); }
    HashOf(TextOf(rel), FragPart(target));
    hide RelPath, Common, NewPath, Split, NormFrom, Reenters, Normal, Names, Join, Hash, Rewritable;
  }

  lemma {:induction false} SplitHashFree(s: string)
    requires '#' !in s
    ensures HashFree(Split(s))
  {
    if s != "" { SplitHashFree(s[1..]); }
  }

  lemma {:induction false} NormHashFree(stack: Path, p: Path)
    requires HashFree(stack) && HashFree(p)
    ensures HashFree(NormFrom(stack, p, false))
    decreases |p|
  {
    if p != [] {
      assert HashFree(Push(stack, p[0], false));
      NormHashFree(Push(stack, p[0], false), p[1..]);
    }
  }

  lemma {:induction false} InsideTarget(cwd: Path, p: Path, dir: Path)
    requires Names(p) && HashFree(p)
    ensures !Reenters(cwd, p) && HashFree(p[Common(dir, p)..])
  {
    NamesDoNotClimb(p);
    hide Common;
  }

  /** Inside the tree there is no exception: whatever directory the script runs from, the rewritten link leads to the
      new place of the page or file the link led to. */
  lemma {:induction false} InsideLinksStayTrue(cwd: Path, target: string, oldPage: Path)
    requires Rewritable(target) && Names(cwd) && oldPage != [] && Names(oldPage) && HashFree(oldPage)
    requires Climb(Resolve(oldPage, PathPart(target))) == 0
    ensures NewPath(oldPage) != []
    ensures var fixed := Fix(cwd, target, oldPage, NewPath(oldPage));
      && Resolve(NewPath(oldPage), PathPart(fixed)) == NewPath(Resolve(oldPage, PathPart(target)))
      && FragPart(fixed) == FragPart(target)
  {
    var path := PathPart(target);
    var was := Resolve(oldPage, path);
    SplitHashFree(path);
    NormHashFree([], DirName(oldPage) + Split(path));
    DestinationIsNormal(target, oldPage);
    assert was[0..] == was;
    MovedNames(was);
    MovedNames(oldPage);
    InsideTarget(cwd, NewPath(was), DirName(NewPath(oldPage)));
    RewrittenLinkResolvesIff(cwd, target, oldPage, NewPath(oldPage));
    hide NewPath, Split, NormFrom, Common, Reenters, HashFree, Resolve, Fix, Hash, Rewritable;
  }

  lemma {:induction false} RepoLinkText()
    ensures Join(["..", "repo", "a.md"]) == "../repo/a.md"
    ensures '#' !in "../repo/a.md" && EndsMd("../repo/a.md")
    ensures Letters("../repo/a.md") == 0
  {
    assert ["..", "repo", "a.md"][1..] == ["repo", "a.md"] && ["repo", "a.md"][1..] == ["a.md"];
    assert "../repo/a.md" == ".." + "/" + ("repo" + "/" + "a.md");
  }

  lemma {:induction false} PlainLink(target: string, p: Path)
    requires |p| > 0 && Whole(p) && Join(p) == target && '#' !in target && EndsMd(target)
    requires Letters(target) == 0 && target[0] != '/'
    ensures PathPart(target) == target && FragPart(target) == "" && Rewritable(target) && Split(target) == p
  {
    HashOf(target, "");
    assert target + "" == target;
    SplitJoin(p);
    hide PathPart, FragPart, Split, Join, Letters, EndsMd;
  }

  lemma {:induction false} RepoLinkParts()
    ensures PathPart("../repo/a.md") == "../repo/a.md" && FragPart("../repo/a.md") == ""
    ensures Rewritable("../repo/a.md") && Split("../repo/a.md") == ["..", "repo", "a.md"]
  {
    RepoLinkText();
    PlainLink("../repo/a.md", ["..", "repo", "a.md"]);
    hide PathPart, FragPart, Split, Join, Letters, EndsMd, Rewritable;
  }

  lemma {:induction false} RepoLinkNorm()
    ensures NormFrom([], DirName(["x.md"]) + ["..", "repo", "a.md"], false) == ["..", "repo", "a.md"]
  {
    var p := ["..", "repo", "a.md"];
    assert DirName(["x.md"]) + p == p && p == Ups(1) + p[1..];
    Walk([], 1, p[1..], false);
  }

  lemma {:induction false} RepoLinkLeads()
    ensures Destination("../repo/a.md", ["x.md"]) == ["..", "repo", "a.md"]
  {
    RepoLinkParts();
    RepoLinkNorm();
    ClimbingIsNotMoved(["..", "repo", "a.md"]);
    hide PathPart, Split, NormFrom, NewPath;
  }

  lemma {:induction false} RepoLinkIsRelative()
    ensures RelPath(["repo"], ["..", "repo", "a.md"], DirName(["x.md"])) == ["a.md"]
  {
    var p := ["..", "repo", "a.md"];
    ClimbIs(p, 1);
    AbsIs(["repo"], p);
    RelPathIs(["repo"], p, []);
    assert DirName(["x.md"]) == [] && ["repo"] + [] == ["repo"];
    assert Abs(["repo"], p) == ["repo", "a.md"];
    assert Common(["repo"], ["repo", "a.md"]) == 1;
    hide Abs, Common, RelPath;
    assert ["repo", "a.md"][1..] == ["a.md"];
  }

  lemma {:induction false} LinkBecomes(cwd: Path, target: string, page: Path, name: string)
    requires page != [] && DirName(page) == [] && Rewritable(target) && FragPart(target) == "" && Name(name)
    requires RelPath(cwd, Destination(target, page), DirName(page)) == [name]
    ensures Fix(cwd, target, page, page) == name && Resolve(page, name) == [name]
  {
    SplitJoin([name]);
    NormNames([], [name], false);
    assert DirName(page) + [name] == [name] && [] + [name] == [name];
    assert name + "" == name;
    hide PathPart, FragPart, Split, NormFrom, NewPath, RelPath, Rewritable;
  }

  /** Run from a directory called `repo`, the link from x.md to ../repo/a.md, which lies outside the tree, is rewritten
      to a.md, which leads to a page inside it. */
  lemma {:induction false} ReenteringLinkIsLost()
    ensures var page := ["x.md"];
      && Rewritable("../repo/a.md") && Names(["repo"]) && Names(page)
      && Destination("../repo/a.md", page) == ["..", "repo", "a.md"]
      && Fix(["repo"], "../repo/a.md", page, page) == "a.md" && Resolve(page, "a.md") == ["a.md"]
  {
    hide PathPart, FragPart, Split, Resolve, RelPath, Rewritable, Destination, Fix;
    RepoLinkParts();
    RepoLinkLeads();
    RepoLinkIsRelative();
    LinkBecomes(["repo"], "../repo/a.md", ["x.md"], "a.md");
  }
}
