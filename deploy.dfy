/** The full-sync script: wipe the target volume, copy the project onto it,
    then locate each declared requirement in the downloaded bundles and copy
    it into the target's `lib` directory. */
module Deploy {
  import opened Wrappers
  import opened Text
  import opened FileSystem
  import Projects
  import opened Sequences

  /** More candidates than this and nothing is deleted. */
  const SafetyCap := 50
  const RequirementsFileName := "requirements.txt"
  const LibDirName := "lib"

  /** One entry of the bundle registry: an arbitrary name and a zip archive's URL. */
  datatype Bundle = Bundle(name: string, url: string)

  /** `REQUIREMENTS_BUNDLES`, in its insertion order. */
  const RequirementsBundles: seq<Bundle> := [
    Bundle("circuitpython_busdriver",
           "https://github.com/adafruit/Adafruit_CircuitPython_BusDevice/releases/download/2.2.11/adafruit-circuitpython-bus-device-py-2.2.11.zip"),
    Bundle("circuitpython_lis3dh",
           "https://github.com/adafruit/Adafruit_CircuitPython_LIS3DH/releases/download/4.3.5/adafruit-circuitpython-lis3dh-py-4.3.5.zip"),
    Bundle("circuitpython_bundle",
           "https://github.com/adafruit/Adafruit_CircuitPython_Bundle/releases/download/20190601/adafruit-circuitpython-bundle-py-20190601.zip")
  ]

  /** How a phase, or the whole run, ends: normally, by `sys.exit(code)`,
      or by an exception. */
  datatype Status = Completed | Exited(code: int) | Failed(error: Error)

  /** The process exit status: an uncaught exception exits with 1 as well. */
  function ExitCode(s: Status): (code: int)
    ensures code == 0 <==> s == Completed || s == Exited(0)
    ensures s.Failed? ==> code == 1
    ensures s.Exited? ==> code == s.code
  {
    match s
    case Completed => 0
    case Exited(c) => c
    case Failed(_) => 1
  }

  // ---------------------------------------------------------------------
  // The requirements manifest

  /** The entry one manifest line contributes: `line.rstrip().strip()`. */
  function Entry(line: string): string {
    Strip(RStrip(line))
  }

  predicate IsRequirement(entry: string) {
    entry != "" && !StartsWith(entry, "#")
  }

  /** The requirements a manifest declares, in line order, duplicates kept. */
  function Requirements(lines: seq<string>): seq<string> {
    if lines == [] then []
    else Requirements(lines[..|lines| - 1])
         + (var entry := Entry(lines[|lines| - 1]); if IsRequirement(entry) then [entry] else [])
  }

  /** What `read_requirements_file` returns, or the error `open` raises. */
  function ReadManifest(tree: Tree, path: Path): Result<seq<string>, Error> {
    if path !in tree then Err(NoSuchFile(path))
    else if tree[path].Dir? then Err(IsADirectory(path))
    else Ok(Requirements(tree[path].lines))
  }

  /** `read_requirements_file` */
  method ReadRequirementsFile(tree: Tree, path: Path) returns (r: Result<seq<string>, Error>)
    ensures r == ReadManifest(tree, path)
  {
    if path !in tree {
      return Err(NoSuchFile(path));
    }
    if tree[path].Dir? {
      return Err(IsADirectory(path));
    }
    var lines := tree[path].lines;
    var requirements := [];
    for i := 0 to |lines|
      invariant requirements == Requirements(lines[..i])
    {
      TakeOneMore(lines, i);
      var package := Entry(lines[i]);
      if package == "" || StartsWith(package, "#") {
        continue;
      }
      requirements := requirements + [package];
    }
    TakeAll(lines);
    return Ok(requirements);
  }

  /** The manifest is read line by line: concatenated manifests declare the
      concatenated requirements, so order and duplicates are kept. */
  lemma {:induction false} RequirementsAppend(a: seq<string>, b: seq<string>)
    ensures Requirements(a + b) == Requirements(a) + Requirements(b)
  {
    if b == [] {
      AppendEmpty(a);
    } else {
      InitOfAppend(a, b);
      RequirementsAppend(a, b[..|b| - 1]);
    }
  }

  /** The stripped manifest lines, one per line. */
  function Entries(lines: seq<string>): seq<string> {
    if lines == [] then [] else Entries(lines[..|lines| - 1]) + [Entry(lines[|lines| - 1])]
  }

  /** Exactly the stripped lines that are neither empty nor comments. */
  lemma {:induction false} RequirementsMembers(lines: seq<string>, x: string)
    ensures x in Requirements(lines) <==> IsRequirement(x) && x in Entries(lines)
  {
    if lines != [] {
      RequirementsMembers(lines[..|lines| - 1], x);
    }
  }

  /** No requirement is empty, starts with `#`, or has white space at an end. */
  lemma {:induction false} RequirementsAreClean(lines: seq<string>)
    ensures forall k :: 0 <= k < |Requirements(lines)| ==> Trimmed(Requirements(lines)[k])
  {
    if lines != [] {
      var init := lines[..|lines| - 1];
      var e := Entry(lines[|lines| - 1]);
      RequirementsAreClean(init);
      StripTrimsBothEnds(RStrip(lines[|lines| - 1]));
      var r := Requirements(lines);
      assert r == Requirements(init) + (if IsRequirement(e) then [e] else []);
      forall k | 0 <= k < |r|
        ensures Trimmed(r[k])
      {
        if k < |Requirements(init)| {
          assert r[k] == Requirements(init)[k];
        }
      }
    }
  }

  /** A requirement with no white space at either end. */
  predicate Trimmed(r: string) {
    IsRequirement(r) && !IsSpace(r[0]) && !IsSpace(r[|r| - 1])
  }

  // ---------------------------------------------------------------------
  // Deleting the target's contents

  /** The paths `delete_files` schedules: every entry whose name does not
      start with a dot, in listing order. */
  function Candidates(location: Path, listing: seq<string>): seq<Path> {
    if listing == [] then []
    else Candidates(location, listing[..|listing| - 1])
         + (var name := listing[|listing| - 1];
            if StartsWith(name, ".") then [] else [location + [name]])
  }

  lemma {:induction false} CandidatesAppend(location: Path, a: seq<string>, b: seq<string>)
    ensures Candidates(location, a + b) == Candidates(location, a) + Candidates(location, b)
  {
    if b == [] {
      AppendEmpty(a);
    } else {
      InitOfAppend(a, b);
      CandidatesAppend(location, a, b[..|b| - 1]);
    }
  }

  /** A candidate is exactly a listed, non-hidden child of the location. */
  lemma {:induction false} CandidatesMembers(location: Path, listing: seq<string>, p: Path)
    ensures p in Candidates(location, listing) <==>
            |p| == |location| + 1 && p[..|location|] == location
            && p[|location|] in listing && !StartsWith(p[|location|], ".")
  {
    if listing != [] {
      var init := listing[..|listing| - 1];
      CandidatesMembers(location, init, p);
      if p in Candidates(location, listing) && p !in Candidates(location, init) {
        assert p == location + [listing[|listing| - 1]];
      }
      if |p| == |location| + 1 && p[..|location|] == location && p[|location|] in listing
         && !StartsWith(p[|location|], ".") && p[|location|] !in init {
        assert p[|location|] == listing[|listing| - 1];
        assert p == location + [listing[|listing| - 1]];
      }
    }
  }

  lemma {:induction false} CandidatesLength(location: Path, listing: seq<string>)
    ensures |Candidates(location, listing)| <= |listing|
  {
    if listing != [] {
      CandidatesLength(location, listing[..|listing| - 1]);
    }
  }

  /** The input is exactly `y`. */
  predicate IsYes(s: string) {
    |s| == 1 && s[0] == 'y'
  }

  /** The input is exactly `n`. */
  predicate IsNo(s: string) {
    |s| == 1 && s[0] == 'n'
  }

  predicate IsAnswer(s: string) {
    IsYes(s) || IsNo(s)
  }

  /** The index of the first input that is exactly `y` or `n`, or the
      number of inputs when there is none. */
  function FirstAnswer(inputs: seq<string>): (k: nat)
    ensures k <= |inputs|
    ensures k < |inputs| ==> IsAnswer(inputs[k])
  {
    if inputs == [] then 0
    else if IsAnswer(inputs[0]) then 0
    else 1 + FirstAnswer(inputs[1..])
  }

  /** No input before the first decisive one is `y` or `n`. */
  lemma {:induction false} BeforeFirstAnswer(inputs: seq<string>)
    ensures forall j :: 0 <= j < FirstAnswer(inputs) ==> !IsAnswer(inputs[j])
  {
    if inputs != [] && !IsAnswer(inputs[0]) {
      BeforeFirstAnswer(inputs[1..]);
    }
  }

  /** `yes_no_from_user`: re-prompts until an input is exactly `y` or `n`;
      `input()` raises at the end of the console input. */
  method YesNoFromUser(inputs: seq<string>) returns (answer: Result<bool, Error>, used: nat)
    ensures used <= |inputs|
    ensures answer.Ok? ==> 0 < used && IsAnswer(inputs[used - 1])
                           && answer.value == IsYes(inputs[used - 1])
                           && forall j :: 0 <= j < used - 1 ==> !IsAnswer(inputs[j])
    ensures answer.Err? ==> answer.error == EndOfInput && used == |inputs|
                            && forall j :: 0 <= j < |inputs| ==> !IsAnswer(inputs[j])
  {
    used := 0;
    while true
      invariant used <= |inputs|
      invariant forall j :: 0 <= j < used ==> !IsAnswer(inputs[j])
      decreases |inputs| - used
    {
      if used == |inputs| {
        return Err(EndOfInput), used;
      }
      var userInput := inputs[used];
      used := used + 1;
      if IsNo(userInput) {
        return Ok(false), used;
      } else if IsYes(userInput) {
        return Ok(true), used;
      }
    }
  }

  /** The result of asking for `n` confirmations in a row: how many were
      granted, how many inputs were read, and how the asking ended. */
  datatype Consent = Consent(granted: nat, used: nat, status: Status)

  function Consents(inputs: seq<string>, n: nat): (c: Consent)
    ensures c.granted <= n && c.used <= |inputs|
    ensures c.status == Completed <==> c.granted == n
    ensures c.status == Completed || c.status == Exited(1) || c.status == Failed(EndOfInput)
    decreases n
  {
    if n == 0 then Consent(0, 0, Completed)
    else
      var k := FirstAnswer(inputs);
      if k == |inputs| then Consent(0, |inputs|, Failed(EndOfInput))
      else if IsNo(inputs[k]) then Consent(0, k + 1, Exited(1))
      else
        var rest := Consents(inputs[k + 1..], n - 1);
        Consent(rest.granted + 1, k + 1 + rest.used, rest.status)
  }

  /** The decisive answers in the console input, `true` for `y`. */
  function Answers(inputs: seq<string>): seq<bool> {
    if inputs == [] then []
    else (if IsAnswer(inputs[0]) then [IsYes(inputs[0])] else []) + Answers(inputs[1..])
  }

  /** The number of `true` at the head of `bs`. */
  function LeadingYes(bs: seq<bool>): (y: nat)
    ensures y <= |bs|
    ensures forall i :: 0 <= i < y ==> bs[i]
    ensures y < |bs| ==> !bs[y]
  {
    if bs == [] || !bs[0] then 0 else 1 + LeadingYes(bs[1..])
  }

  lemma {:induction false} AnswersFromFirst(inputs: seq<string>)
    ensures FirstAnswer(inputs) == |inputs| ==> Answers(inputs) == []
    ensures FirstAnswer(inputs) < |inputs| ==>
              Answers(inputs) == [IsYes(inputs[FirstAnswer(inputs)])] + Answers(inputs[FirstAnswer(inputs) + 1..])
    decreases |inputs|, 1
  {
    if inputs == [] {
    } else if IsAnswer(inputs[0]) {
      AnswerAtHead(inputs);
    } else {
      AnswersAfterSkip(inputs);
    }
  }

  /** `AnswersFromFirst` when the first input is not decisive. */
  lemma {:induction false} AnswersAfterSkip(inputs: seq<string>)
    requires inputs != [] && !IsAnswer(inputs[0])
    ensures FirstAnswer(inputs) == |inputs| ==> Answers(inputs) == []
    ensures FirstAnswer(inputs) < |inputs| ==>
              Answers(inputs) == [IsYes(inputs[FirstAnswer(inputs)])] + Answers(inputs[FirstAnswer(inputs) + 1..])
    decreases |inputs|, 0
  {
    var tail := inputs[1..];
    AnswersFromFirst(tail);
    SkipUndecided(inputs);
    var k := FirstAnswer(tail);
    if k < |tail| {
      AnswerAfterSkip(inputs, k);
    }
  }

  lemma AnswerAfterSkip(inputs: seq<string>, k: nat)
    requires inputs != [] && k + 1 < |inputs|
    requires Answers(inputs) == Answers(inputs[1..]) && FirstAnswer(inputs) == k + 1
    requires Answers(inputs[1..]) == [IsYes(inputs[1..][k])] + Answers(inputs[1..][k + 1..])
    ensures Answers(inputs) == [IsYes(inputs[k + 1])] + Answers(inputs[k + 2..])
  {
    DropFromTail(inputs, k);
  }

  lemma AnswerAtHead(inputs: seq<string>)
    requires inputs != [] && IsAnswer(inputs[0])
    ensures FirstAnswer(inputs) == 0
    ensures Answers(inputs) == [IsYes(inputs[0])] + Answers(inputs[1..])
  {
  }

  /** An input that is neither `y` nor `n` leaves no answer behind. */
  lemma SkipUndecided(inputs: seq<string>)
    requires inputs != [] && !IsAnswer(inputs[0])
    ensures Answers(inputs) == Answers(inputs[1..])
    ensures FirstAnswer(inputs) == 1 + FirstAnswer(inputs[1..])
  {
    assert [] + Answers(inputs[1..]) == Answers(inputs[1..]);
  }

  /** Confirmation against the plain reading of the console: the first `n`
      decisive answers are consulted in order; every `y` grants one removal,
      the first `n` ends the run with status 1, and running out of input
      before `n` answers is an error. */
  lemma {:induction false} ConsentsFollowAnswers(inputs: seq<string>, n: nat)
    ensures var a := Answers(inputs); var y := LeadingYes(a); var c := Consents(inputs, n);
            c.granted == (if y < n then y else n)
            && c.status == (if n <= y then Completed else if y < |a| then Exited(1) else Failed(EndOfInput))
    decreases n, 1
  {
    if n > 0 {
      var k := FirstAnswer(inputs);
      if k == |inputs| || IsNo(inputs[k]) {
        NoYesAhead(inputs, n);
      } else {
        ConsentsAfterYes(inputs, n);
      }
    }
  }

  /** `ConsentsFollowAnswers` when the first decisive answer is `y`. */
  lemma {:induction false} ConsentsAfterYes(inputs: seq<string>, n: nat)
    requires 0 < n
    requires var k := FirstAnswer(inputs); k < |inputs| && IsYes(inputs[k])
    ensures var a := Answers(inputs); var y := LeadingYes(a); var c := Consents(inputs, n);
            c.granted == (if y < n then y else n)
            && c.status == (if n <= y then Completed else if y < |a| then Exited(1) else Failed(EndOfInput))
    decreases n, 0
  {
    var rest := inputs[FirstAnswer(inputs) + 1..];
    ConsentsFollowAnswers(rest, n - 1);
    YesAhead(inputs, n);
    var now, later := Consents(inputs, n), Consents(rest, n - 1);
    var a, b := Answers(inputs), Answers(rest);
    YesCounts(n, LeadingYes(a), |a|, now.granted, now.status, LeadingYes(b), |b|, later.granted, later.status);
  }

  /** The arithmetic of one granted removal. */
  lemma YesCounts(n: nat, y: nat, na: nat, g: nat, st: Status, y': nat, nb: nat, g': nat, st': Status)
    requires 0 < n && y == y' + 1 && na == nb + 1 && g == g' + 1 && st == st'
    requires g' == (if y' < n - 1 then y' else n - 1)
    requires st' == (if n - 1 <= y' then Completed else if y' < nb then Exited(1) else Failed(EndOfInput))
    ensures g == (if y < n then y else n)
    ensures st == (if n <= y then Completed else if y < na then Exited(1) else Failed(EndOfInput))
  {
  }

  /** The first decisive answer is missing or `n`: no removal is granted. */
  lemma NoYesAhead(inputs: seq<string>, n: nat)
    requires 0 < n
    requires var k := FirstAnswer(inputs); k == |inputs| || IsNo(inputs[k])
    ensures LeadingYes(Answers(inputs)) == 0
    ensures var k := FirstAnswer(inputs);
            Consents(inputs, n) == if k == |inputs| then Consent(0, |inputs|, Failed(EndOfInput))
                                   else Consent(0, k + 1, Exited(1))
    ensures FirstAnswer(inputs) < |inputs| <==> 0 < |Answers(inputs)|
  {
    AnswersFromFirst(inputs);
    var a := Answers(inputs);
    if FirstAnswer(inputs) == |inputs| {
      assert a == [];
    } else {
      assert !a[0];
    }
  }

  /** The first decisive answer is `y`: one removal is granted and the rest
      of the input decides the others. */
  lemma YesAhead(inputs: seq<string>, n: nat)
    requires 0 < n
    requires var k := FirstAnswer(inputs); k < |inputs| && IsYes(inputs[k])
    ensures var later := Answers(inputs[FirstAnswer(inputs) + 1..]);
            LeadingYes(Answers(inputs)) == 1 + LeadingYes(later)
            && |Answers(inputs)| == 1 + |later|
    ensures var rest := Consents(inputs[FirstAnswer(inputs) + 1..], n - 1);
            Consents(inputs, n) == Consent(rest.granted + 1, FirstAnswer(inputs) + 1 + rest.used, rest.status)
  {
    AnswersFromFirst(inputs);
    var a := Answers(inputs);
    var later := Answers(inputs[FirstAnswer(inputs) + 1..]);
    assert a == [true] + later;
    assert a[1..] == later;
  }

  /** What `delete_files` removes, how many console inputs it reads and how it ends. */
  datatype Deletion = Deletion(removed: seq<Path>, used: nat, status: Status)

  function PlanDeletion(tree: Tree, location: Path, confirm: bool, inputs: seq<string>): Deletion {
    match ListDir(tree, location)
    case Err(e) => Deletion([], 0, Failed(e))
    case Ok(listing) =>
      var candidates := Candidates(location, listing);
      if |candidates| > SafetyCap then Deletion([], 0, Failed(TooManyToRemove(candidates)))
      else if !confirm then Deletion(candidates, 0, Completed)
      else
        var c := Consents(inputs, |candidates|);
        Deletion(candidates[..c.granted], c.used, c.status)
  }

  function Removals(ps: seq<Path>): (r: seq<Action>)
    ensures |r| == |ps| && forall i :: 0 <= i < |ps| ==> r[i] == Removed(ps[i])
  {
    if ps == [] then [] else Removals(ps[..|ps| - 1]) + [Removed(ps[|ps| - 1])]
  }

  /** The safety cap is checked before anything is removed: more than 50
      candidates remove nothing, exactly 50 pass the check. */
  lemma DeletionCap(tree: Tree, location: Path, confirm: bool, inputs: seq<string>)
    requires IsDir(tree, location)
    ensures var c := Candidates(location, tree[location].listing);
            var d := PlanDeletion(tree, location, confirm, inputs);
            (|c| > SafetyCap ==> d.removed == [] && d.status == Failed(TooManyToRemove(c)))
            && (|c| <= SafetyCap ==> !d.status.Failed? || d.status == Failed(EndOfInput))
  {
  }

  /** What is removed is always a prefix of the candidates, in order; with
      confirmation off every candidate goes, and a run that completes has
      removed every candidate. */
  lemma DeletionRemovesPrefix(tree: Tree, location: Path, confirm: bool, inputs: seq<string>)
    requires IsDir(tree, location)
    ensures var c := Candidates(location, tree[location].listing);
            var d := PlanDeletion(tree, location, confirm, inputs);
            |d.removed| <= |c| && d.removed == c[..|d.removed|]
            && (d.status == Completed ==> d.removed == c)
            && (!confirm && |c| <= SafetyCap ==> d.removed == c && d.status == Completed && d.used == 0)
  {
  }

  /** Declining stops the run: answering `n` to the `k`-th question, after
      `y` to the ones before, removes exactly the first `k` candidates and
      exits with status 1. */
  lemma DeclineStopsDeletion(tree: Tree, location: Path, inputs: seq<string>)
    requires IsDir(tree, location)
    requires |Candidates(location, tree[location].listing)| <= SafetyCap
    ensures var c := Candidates(location, tree[location].listing);
            var a := Answers(inputs); var k := LeadingYes(a);
            var d := PlanDeletion(tree, location, true, inputs);
            k < |c| && k < |a| ==> d.removed == c[..k] && d.status == Exited(1) && ExitCode(d.status) == 1
  {
    ConsentsFollowAnswers(inputs, |Candidates(location, tree[location].listing)|);
  }

  /** Everything `delete_files` removes is a direct child of the location
      whose name does not start with a dot. */
  lemma RemovedAreVisibleChildren(tree: Tree, location: Path, confirm: bool, inputs: seq<string>)
    requires IsDir(tree, location)
    ensures var removed := PlanDeletion(tree, location, confirm, inputs).removed;
            forall i :: 0 <= i < |removed| ==>
              |removed[i]| == |location| + 1 && removed[i][..|location|] == location
              && !StartsWith(removed[i][|location|], ".")
  {
    var listing := tree[location].listing;
    var c := Candidates(location, listing);
    var removed := PlanDeletion(tree, location, confirm, inputs).removed;
    assert removed == c[..|removed|];
    forall i | 0 <= i < |removed|
      ensures |removed[i]| == |location| + 1 && removed[i][..|location|] == location
      ensures !StartsWith(removed[i][|location|], ".")
    {
      assert removed[i] in c;
      CandidatesMembers(location, listing, removed[i]);
    }
  }

  /** Dotfiles are never removed: an entry whose name starts with a dot, and
      everything beneath it, survives the deletion unchanged, and the
      location still lists it. */
  lemma DeletionSparesDotfiles(tree: Tree, location: Path, confirm: bool, inputs: seq<string>,
                               name: string, q: Path)
    requires IsDir(tree, location)
    requires name in tree[location].listing && StartsWith(name, ".")
    ensures var after := RemoveAll(tree, PlanDeletion(tree, location, confirm, inputs).removed);
            IsDir(after, location) && name in after[location].listing
    ensures var after := RemoveAll(tree, PlanDeletion(tree, location, confirm, inputs).removed);
            q in tree && IsPrefix(location + [name], q) ==> q in after && after[q] == tree[q]
  {
    var removed := PlanDeletion(tree, location, confirm, inputs).removed;
    RemovedAreVisibleChildren(tree, location, confirm, inputs);
    DotfileStaysListed(tree, location, removed, name);
    if q in tree && IsPrefix(location + [name], q) {
      DotfileStaysIntact(tree, location, removed, name, q);
    }
  }

  /** Removing visible children of `location` keeps every dotfile listed. */
  lemma DotfileStaysListed(tree: Tree, location: Path, removed: seq<Path>, name: string)
    requires IsDir(tree, location)
    requires name in tree[location].listing && StartsWith(name, ".")
    requires forall i :: 0 <= i < |removed| ==>
               |removed[i]| == |location| + 1 && !StartsWith(removed[i][|location|], ".")
    ensures IsDir(RemoveAll(tree, removed), location) && name in RemoveAll(tree, removed)[location].listing
  {
    forall i | 0 <= i < |removed|
      ensures !IsPrefix(removed[i], location) && removed[i] != location + [name]
    {
      assert (location + [name])[|location|] == name;
    }
    RemoveAllKeepsName(tree, removed, location, name);
  }

  /** Removing visible children of `location` keeps everything beneath a
      dotfile as it was. */
  lemma DotfileStaysIntact(tree: Tree, location: Path, removed: seq<Path>, name: string, q: Path)
    requires StartsWith(name, ".") && q in tree && IsPrefix(location + [name], q)
    requires forall i :: 0 <= i < |removed| ==>
               |removed[i]| == |location| + 1 && !StartsWith(removed[i][|location|], ".")
    ensures q in RemoveAll(tree, removed) && RemoveAll(tree, removed)[q] == tree[q]
  {
    assert q[|location|] == name;
    forall i | 0 <= i < |removed|
      ensures !IsPrefix(removed[i], q) && (|removed[i]| == 0 || q != Parent(removed[i]))
    {
      DivergentNotPrefix(removed[i], q, |location|);
    }
    RemoveAllKeeps(tree, removed, q);
  }

  lemma DivergentNotPrefix(p: Path, q: Path, n: nat)
    requires n < |p| && n < |q| && p[n] != q[n]
    ensures !IsPrefix(p, q)
  {
  }

  /** How `Consents` goes on after the first decisive answer, which
      `yes_no_from_user` finds at position `u - 1` of `inputs[at..]`. */
  lemma ConsentsAfterAnswer(inputs: seq<string>, at: nat, n: nat, u: nat)
    requires 0 < n && 0 < u && at + u <= |inputs|
    requires IsAnswer(inputs[at..][u - 1])
    requires forall j :: 0 <= j < u - 1 ==> !IsAnswer(inputs[at..][j])
    ensures IsNo(inputs[at..][u - 1]) ==> Consents(inputs[at..], n) == Consent(0, u, Exited(1))
    ensures IsYes(inputs[at..][u - 1]) ==>
              var now := Consents(inputs[at..], n);
              var rest := Consents(inputs[at + u..], n - 1);
              now.granted == rest.granted + 1 && now.used == u + rest.used && now.status == rest.status
  {
    BeforeFirstAnswer(inputs[at..]);
    assert FirstAnswer(inputs[at..]) == u - 1;
    DropAfterDrop(inputs, at, u);
  }

  lemma ConsentsWithoutAnswer(inputs: seq<string>, n: nat)
    requires 0 < n && forall j :: 0 <= j < |inputs| ==> !IsAnswer(inputs[j])
    ensures Consents(inputs, n) == Consent(0, |inputs|, Failed(EndOfInput))
  {
    assert FirstAnswer(inputs) == |inputs|;
  }

  /** The list `delete_files` builds before removing anything. */
  method CollectCandidates(location: Path, listing: seq<string>) returns (toRemove: seq<Path>)
    ensures toRemove == Candidates(location, listing)
  {
    toRemove := [];
    for i := 0 to |listing|
      invariant toRemove == Candidates(location, listing[..i])
    {
      TakeOneMore(listing, i);
      var name := listing[i];
      if StartsWith(name, ".") {
        continue;
      }
      toRemove := toRemove + [location + [name]];
    }
    TakeAll(listing);
  }

  /** What is still to be granted once `n` removals remain and the
      console has been read up to `inputs[at..]`. */
  function Pending(confirm: bool, inputs: seq<string>, n: nat): Consent {
    if confirm then Consents(inputs, n) else Consent(n, 0, Completed)
  }

  /** One confirmation prompt of the removal loop, reading from `inputs[at..]`:
      either the removal goes ahead and `Consents` carries on from `next`,
      or the loop ends here with `status`. */
  method AskRemoval(inputs: seq<string>, at: nat, n: nat) returns (proceed: bool, status: Status, next: nat)
    requires at <= |inputs| && 0 < n
    ensures at <= next <= |inputs|
    ensures var now := Consents(inputs[at..], n);
            if proceed then
              var rest := Consents(inputs[next..], n - 1);
              now.granted == rest.granted + 1 && now.used == next - at + rest.used && now.status == rest.status
            else now.granted == 0 && now.used == next - at && now.status == status
  {
    var answer, u := YesNoFromUser(inputs[at..]);
    next := at + u;
    if answer.Err? {
      ConsentsWithoutAnswer(inputs[at..], n);
      return false, Failed(answer.error), next;
    }
    ConsentsAfterAnswer(inputs, at, n, u);
    proceed := answer.value;
    status := if proceed then Completed else Exited(1);
  }

  /** One `rm -rf` of the removal loop, extending the removals so far by `toRemove[i]`. */
  method RemoveNext(disk: Disk, toRemove: seq<Path>, i: nat, ghost tree0: Tree, ghost log0: seq<Action>)
    requires i < |toRemove|
    requires disk.tree == RemoveAll(tree0, toRemove[..i]) && disk.log == log0 + Removals(toRemove[..i])
    modifies disk
    ensures disk.tree == RemoveAll(tree0, toRemove[..i + 1]) && disk.log == log0 + Removals(toRemove[..i + 1])
  {
    TakeOneMore(toRemove, i);
    AppendAssoc(log0, Removals(toRemove[..i]), [Removed(toRemove[i])]);
    disk.Remove(toRemove[i]);
  }

  /** One turn of the removal loop of `delete_files`: the prompt, when
      confirmation is on, then the `rm -rf`; or the end of the loop. */
  method RemovalStep(disk: Disk, toRemove: seq<Path>, confirm: bool, inputs: seq<string>, i: nat, used: nat,
                     ghost tree0: Tree, ghost log0: seq<Action>)
    returns (proceed: bool, status: Status, next: nat)
    requires i < |toRemove| && used <= |inputs|
    requires disk.tree == RemoveAll(tree0, toRemove[..i]) && disk.log == log0 + Removals(toRemove[..i])
    modifies disk
    ensures used <= next <= |inputs|
    ensures var now := Pending(confirm, inputs[used..], |toRemove| - i);
            if proceed then
              var rest := Pending(confirm, inputs[next..], |toRemove| - i - 1);
              disk.tree == RemoveAll(tree0, toRemove[..i + 1]) && disk.log == log0 + Removals(toRemove[..i + 1])
              && now.granted == rest.granted + 1 && now.used == next - used + rest.used && now.status == rest.status
            else
              disk.tree == old(disk.tree) && disk.log == old(disk.log)
              && now.granted == 0 && now.used == next - used && now.status == status
  {
    proceed, status, next := Confirm(confirm, inputs, used, |toRemove| - i);
    if proceed {
      RemoveNext(disk, toRemove, i, tree0, log0);
    }
  }

  /** The prompt before one removal, when confirmation is on. */
  method Confirm(confirm: bool, inputs: seq<string>, at: nat, n: nat) returns (proceed: bool, status: Status, next: nat)
    requires at <= |inputs| && 0 < n
    ensures at <= next <= |inputs|
    ensures var now := Pending(confirm, inputs[at..], n);
            if proceed then
              var rest := Pending(confirm, inputs[next..], n - 1);
              now.granted == rest.granted + 1 && now.used == next - at + rest.used && now.status == rest.status
            else now.granted == 0 && now.used == next - at && now.status == status
  {
    if confirm {
      proceed, status, next := AskRemoval(inputs, at, n);
    } else {
      DropNone(inputs[at..]);
      DropAfterDrop(inputs, at, 0);
      proceed, status, next := true, Completed, at;
    }
  }

  /** The removal loop of `delete_files`: each path in turn, after a `y`
      when confirmation is on; `n` exits with status 1. */
  method RemoveEach(disk: Disk, toRemove: seq<Path>, confirm: bool, inputs: seq<string>)
    returns (status: Status, used: nat)
    modifies disk
    ensures var c := Pending(confirm, inputs, |toRemove|);
            disk.tree == RemoveAll(old(disk.tree), toRemove[..c.granted])
            && disk.log == old(disk.log) + Removals(toRemove[..c.granted])
            && status == c.status && used == c.used
  {
    ghost var full := Pending(confirm, inputs, |toRemove|);
    used := 0;
    DropNone(inputs);
    AppendEmpty(disk.log);
    for i := 0 to |toRemove|
      invariant disk.tree == RemoveAll(old(disk.tree), toRemove[..i])
      invariant disk.log == old(disk.log) + Removals(toRemove[..i])
      invariant used <= |inputs|
      invariant var rest := Pending(confirm, inputs[used..], |toRemove| - i);
                full.granted == i + rest.granted && full.used == used + rest.used && full.status == rest.status
    {
      var proceed, s, next := RemovalStep(disk, toRemove, confirm, inputs, i, used, old(disk.tree), old(disk.log));
      if !proceed {
        return s, next;
      }
      used := next;
    }
    TakeAll(toRemove);
    return Completed, used;
  }

  /** `delete_files(location, user_confirm)`, reading its answers from `inputs`. */
  method DeleteFiles(disk: Disk, location: Path, confirm: bool, inputs: seq<string>)
    returns (status: Status, used: nat)
    modifies disk
    ensures var d := PlanDeletion(old(disk.tree), location, confirm, inputs);
            disk.tree == RemoveAll(old(disk.tree), d.removed)
            && disk.log == old(disk.log) + Removals(d.removed)
            && status == d.status && used == d.used
  {
    var listed := ListDir(disk.tree, location);
    if listed.Err? {
      AppendEmpty(disk.log);
      return Failed(listed.error), 0;
    }
    var toRemove := CollectCandidates(location, listed.value);
    if |toRemove| > SafetyCap {
      AppendEmpty(disk.log);
      return Failed(TooManyToRemove(toRemove)), 0;
    }
    status, used := RemoveEach(disk, toRemove, confirm, inputs);
    TakeAll(toRemove);
  }

  // ---------------------------------------------------------------------
  // The bundle cache

  function Downloads(bundles: seq<Bundle>, cache: Path): seq<Action> {
    if bundles == [] then []
    else [Downloaded(bundles[0].name, bundles[0].url, cache)] + Downloads(bundles[1..], cache)
  }

  /** Each registry entry is downloaded once, in registry order. */
  lemma {:induction false} DownloadsInOrder(bundles: seq<Bundle>, cache: Path)
    ensures |Downloads(bundles, cache)| == |bundles|
    ensures forall i :: 0 <= i < |bundles| ==>
              Downloads(bundles, cache)[i] == Downloaded(bundles[i].name, bundles[i].url, cache)
  {
    if bundles != [] {
      DownloadsInOrder(bundles[1..], cache);
      assert forall i :: 1 <= i < |bundles| ==> bundles[1..][i - 1] == bundles[i];
    }
  }

  /** What a phase does to the tree, what it adds to the log, how it ends. */
  datatype Effect = Effect(tree: Tree, actions: seq<Action>, status: Status)

  /** `download_zipfile` for each registry entry in turn; the first one
      that fails ends the phase, and the archives unpacked before it stay. */
  function FetchAll(tree: Tree, bundles: seq<Bundle>, archives: map<string, Archive>, cache: Path): (r: Effect)
    ensures IsDir(tree, cache) ==> IsDir(r.tree, cache)
    decreases bundles
  {
    if bundles == [] then Effect(tree, [], Completed)
    else match Fetch(tree, cache, bundles[0].url, archives)
      case Err(e) => Effect(tree, [], Failed(e))
      case Ok(unpacked) =>
        FetchKeepsCache(tree, cache, bundles[0].url, archives);
        var rest := FetchAll(unpacked, bundles[1..], archives, cache);
        Effect(rest.tree, [Downloaded(bundles[0].name, bundles[0].url, cache)] + rest.actions, rest.status)
  }

  /** One download never turns a directory into a file or a file into a
      directory. */
  lemma FetchKeepsKinds(tree: Tree, cache: Path, url: string, archives: map<string, Archive>, q: Path)
    requires q in tree && Fetch(tree, cache, url, archives).Ok?
    ensures var r := Fetch(tree, cache, url, archives).value;
            q in r && (r[q].Dir? <==> tree[q].Dir?)
  {
    var saved := WriteFile(tree, cache + [Basename(url)], []).value;
    WriteFileEffect(tree, cache + [Basename(url)], []);
    ExtractKeepsKinds(saved, cache, archives[url].members, q);
  }

  lemma FetchKeepsCache(tree: Tree, cache: Path, url: string, archives: map<string, Archive>)
    requires Fetch(tree, cache, url, archives).Ok?
    ensures IsDir(Fetch(tree, cache, url, archives).value, cache)
  {
    FetchKeepsKinds(tree, cache, url, archives, cache);
  }

  /** The downloads are a prefix of the registry, in order, and the phase
      completes exactly when every entry was downloaded. */
  lemma {:induction false} FetchAllLog(tree: Tree, bundles: seq<Bundle>, archives: map<string, Archive>, cache: Path)
    ensures var e := FetchAll(tree, bundles, archives, cache);
            var k := |e.actions|;
            k <= |bundles| && e.actions == Downloads(bundles[..k], cache)
            && (e.status == Completed <==> k == |bundles|)
    decreases bundles
  {
    if bundles != [] {
      var f := Fetch(tree, cache, bundles[0].url, archives);
      if f.Ok? {
        FetchAllLog(f.value, bundles[1..], archives, cache);
        var k := |FetchAll(tree, bundles, archives, cache).actions|;
        assert bundles[..k][1..] == bundles[1..][..k - 1];
      }
    }
  }

  /** A phase that does not complete ends with the error of the first
      entry that could not be downloaded, in the tree the earlier
      downloads left. */
  lemma {:induction false} FetchAllStops(tree: Tree, bundles: seq<Bundle>, archives: map<string, Archive>, cache: Path)
    ensures var e := FetchAll(tree, bundles, archives, cache);
            var k := |e.actions|;
            e.status != Completed ==>
              k < |bundles|
              && var before := FetchAll(tree, bundles[..k], archives, cache);
                 Fetch(before.tree, cache, bundles[k].url, archives).Err?
                 && e == Effect(before.tree, before.actions, Failed(Fetch(before.tree, cache, bundles[k].url, archives).error))
    decreases bundles
  {
    FetchAllLog(tree, bundles, archives, cache);
    if bundles != [] {
      var f := Fetch(tree, cache, bundles[0].url, archives);
      if f.Ok? {
        FetchAllStops(f.value, bundles[1..], archives, cache);
        var k := |FetchAll(tree, bundles, archives, cache).actions|;
        assert bundles[..k][1..] == bundles[1..][..k - 1];
      } else {
        assert bundles[..0] == [];
      }
    }
  }

  /** Downloading nothing but entries that cannot be fetched: a URL that
      is out of reach stops the phase with that URL as the error. */
  lemma UnreachableStops(tree: Tree, bundles: seq<Bundle>, archives: map<string, Archive>, cache: Path)
    requires bundles != [] && bundles[0].url !in archives
    ensures FetchAll(tree, bundles, archives, cache) == Effect(tree, [], Failed(DownloadFailed(bundles[0].url)))
  {
  }

  /** Whatever lies outside the cache is left alone by the downloads. */
  lemma {:induction false} FetchAllOutside(tree: Tree, bundles: seq<Bundle>, archives: map<string, Archive>,
                                           cache: Path, q: Path)
    requires q in tree && !IsPrefix(cache, q)
    ensures var e := FetchAll(tree, bundles, archives, cache);
            q in e.tree && e.tree[q] == tree[q]
    decreases bundles
  {
    if bundles != [] {
      var f := Fetch(tree, cache, bundles[0].url, archives);
      if f.Ok? {
        FetchOutside(tree, cache, bundles[0].url, archives, q);
        FetchAllOutside(f.value, bundles[1..], archives, cache, q);
      }
    }
  }

  /** One download leaves alone whatever lies outside the cache. */
  lemma FetchOutside(tree: Tree, cache: Path, url: string, archives: map<string, Archive>, q: Path)
    requires q in tree && !IsPrefix(cache, q) && Fetch(tree, cache, url, archives).Ok?
    ensures q in Fetch(tree, cache, url, archives).value && Fetch(tree, cache, url, archives).value[q] == tree[q]
  {
    var zip := cache + [Basename(url)];
    assert zip[..|cache|] == cache && Parent(zip) == cache;
    WriteFileEffect(tree, zip, []);
    ExtractOutside(WriteFile(tree, zip, []).value, cache, archives[url].members, q);
  }

  /** The downloads never turn a directory into a file or a file into a
      directory. */
  lemma {:induction false} FetchAllKeepsKinds(tree: Tree, bundles: seq<Bundle>, archives: map<string, Archive>,
                                              cache: Path, q: Path)
    requires q in tree
    ensures var e := FetchAll(tree, bundles, archives, cache);
            q in e.tree && (e.tree[q].Dir? <==> tree[q].Dir?)
    decreases bundles
  {
    if bundles != [] {
      var f := Fetch(tree, cache, bundles[0].url, archives);
      if f.Ok? {
        FetchKeepsKinds(tree, cache, bundles[0].url, archives, q);
        FetchAllKeepsKinds(f.value, bundles[1..], archives, cache, q);
      }
    }
  }

  /** After a phase that completes, every member of every downloaded
      archive is in the cache with its own kind, and the directory of a
      file member is a directory, made if the archive did not list it. */
  lemma {:induction false} FetchAllPlaces(tree: Tree, bundles: seq<Bundle>, archives: map<string, Archive>,
                                          cache: Path, i: nat, m: nat)
    requires FetchAll(tree, bundles, archives, cache).status == Completed
    requires i < |bundles| && bundles[i].url in archives && m < |archives[bundles[i].url].members|
    ensures Placed(FetchAll(tree, bundles, archives, cache).tree, cache, archives[bundles[i].url].members[m])
    decreases bundles
  {
    var f := Fetch(tree, cache, bundles[0].url, archives);
    var member := archives[bundles[i].url].members[m];
    FetchAllFirst(tree, bundles, archives, cache);
    var rest := FetchAll(f.value, bundles[1..], archives, cache).tree;
    if i == 0 {
      FetchPlaces(tree, cache, bundles[0].url, archives, m);
      FetchAllKeepsPlaced(f.value, bundles[1..], archives, cache, member);
    } else {
      assert bundles[1..][i - 1] == bundles[i];
      FetchAllPlaces(f.value, bundles[1..], archives, cache, i - 1, m);
    }
    assert Placed(rest, cache, member);
    assert FetchAll(tree, bundles, archives, cache).tree == rest;
  }

  /** A phase that completes downloads its first bundle and then completes
      on the rest. */
  lemma FetchAllFirst(tree: Tree, bundles: seq<Bundle>, archives: map<string, Archive>, cache: Path)
    requires bundles != [] && FetchAll(tree, bundles, archives, cache).status == Completed
    ensures var f := Fetch(tree, cache, bundles[0].url, archives);
            f.Ok? && FetchAll(f.value, bundles[1..], archives, cache).status == Completed
            && FetchAll(tree, bundles, archives, cache).tree == FetchAll(f.value, bundles[1..], archives, cache).tree
  {
  }

  /** A member in place stays in place through later downloads. */
  lemma FetchAllKeepsPlaced(tree: Tree, bundles: seq<Bundle>, archives: map<string, Archive>, cache: Path,
                            member: Member)
    requires Placed(tree, cache, member)
    ensures Placed(FetchAll(tree, bundles, archives, cache).tree, cache, member)
  {
    var target := cache + member.path;
    FetchAllKeepsKinds(tree, bundles, archives, cache, target);
    if member.FileEntry? {
      FetchAllKeepsKinds(tree, bundles, archives, cache, Parent(target));
    }
  }


  /** One download places every member of its archive with its own kind. */
  lemma FetchPlaces(tree: Tree, cache: Path, url: string, archives: map<string, Archive>, m: nat)
    requires Fetch(tree, cache, url, archives).Ok? && m < |archives[url].members|
    ensures Placed(Fetch(tree, cache, url, archives).value, cache, archives[url].members[m])
  {
    ExtractPlacesMember(WriteFile(tree, cache + [Basename(url)], []).value, cache, archives[url].members, m);
  }


  function PlanDownload(tree: Tree, bundles: seq<Bundle>, archives: map<string, Archive>, cache: Path): Effect {
    if IsDir(tree, cache) then Effect(tree, [], Completed)
    else match MakeDir(tree, cache)
      case Err(e) => Effect(tree, [], Failed(e))
      case Ok(made) => FetchAll(made, bundles, archives, cache)
  }

  /** The cache directory's presence is the only freshness signal: once it
      has been created, even by a phase whose downloads then failed, running
      the phase again downloads nothing and changes nothing. */
  lemma DownloadIsIdempotent(tree: Tree, bundles: seq<Bundle>, archives: map<string, Archive>, cache: Path)
    ensures var e := PlanDownload(tree, bundles, archives, cache);
            (IsDir(tree, cache) || MakeDir(tree, cache).Ok?) ==>
              IsDir(e.tree, cache) && PlanDownload(e.tree, bundles, archives, cache) == Effect(e.tree, [], Completed)
  {
  }

  /** On a fresh cache (nothing at or beneath its path), a bundle whose
      archive holds just the file `top/lib/<requirement>/<file>`, with
      no directory entries, supplies that requirement: unpacking makes the
      directories above the file, the saved zip file is listed first and
      skipped, and the made directory matches. */
  lemma FreshCacheSupplies(tree: Tree, bundle: Bundle, archives: map<string, Archive>, cache: Path,
                           top: string, requirement: string, file: string, lines: seq<string>)
    requires |cache| > 0 && IsDir(tree, Parent(cache)) && forall q :: q in tree ==> !IsPrefix(cache, q)
    requires bundle.url in archives && Basename(bundle.url) != "" && top != Basename(bundle.url)
    requires archives[bundle.url].members == [FileEntry([top, LibDirName, requirement, file], lines)]
    ensures var e := PlanDownload(tree, [bundle], archives, cache);
            e.status == Completed && e.actions == [Downloaded(bundle.name, bundle.url, cache)]
            && Find(e.tree, cache, requirement) == Ok(cache + [top, LibDirName, requirement])
  {
    var zip := Basename(bundle.url);
    var t0, t1 := SaveInFreshCache(tree, cache, zip, top, requirement, file);
    var t5 := UnpackLibrary(t1, cache, zip, top, requirement, file, lines);
    assert Fetch(t0, cache, bundle.url, archives) == Ok(t5);
    FetchOne(t0, bundle, archives, cache);
    FoundBesideZip(t5, cache, zip, top, requirement);
  }

  /** Creating a fresh cache and saving the zip file in it. */
  lemma SaveInFreshCache(tree: Tree, cache: Path, zip: string, top: string, requirement: string, file: string)
    returns (t0: Tree, t1: Tree)
    requires |cache| > 0 && IsDir(tree, Parent(cache)) && forall q :: q in tree ==> !IsPrefix(cache, q)
    requires zip != "" && top != zip
    ensures MakeDir(tree, cache) == Ok(t0) && !IsDir(t0, cache + [zip]) && WriteFile(t0, cache + [zip], []) == Ok(t1)
    ensures cache in t1 && t1[cache] == Dir([zip]) && cache + [zip] in t1 && t1[cache + [zip]] == File([])
    ensures cache + [top] !in t1 && cache + [top, LibDirName] !in t1 && cache + [top, LibDirName, requirement] !in t1
            && cache + [top, LibDirName, requirement, file] !in t1
  {
    t0 := MakeFreshCache(tree, cache);
    var saved := cache + [zip];
    assert IsPrefix(cache, saved) && Parent(saved) == cache && Last(saved) == zip;
    t1 := WriteFile(t0, saved, []).value;
    WriteFileEffect(t0, saved, []);
    FreshBeneath(t0, t1, cache, saved, [top]);
    FreshBeneath(t0, t1, cache, saved, [top, LibDirName]);
    FreshBeneath(t0, t1, cache, saved, [top, LibDirName, requirement]);
    FreshBeneath(t0, t1, cache, saved, [top, LibDirName, requirement, file]);
  }

  /** `os.mkdir` of a cache that nothing lies beneath. */
  lemma MakeFreshCache(tree: Tree, cache: Path) returns (t0: Tree)
    requires |cache| > 0 && IsDir(tree, Parent(cache)) && forall q :: q in tree ==> !IsPrefix(cache, q)
    ensures MakeDir(tree, cache) == Ok(t0) && cache in t0 && t0[cache] == Dir([])
    ensures forall q :: q in t0 && IsPrefix(cache, q) ==> q == cache
  {
    assert IsPrefix(cache, cache);
    t0 := MakeDir(tree, cache).value;
  }

  /** After saving one file in the fresh cache, nothing else lies beneath it. */
  lemma FreshBeneath(t0: Tree, t1: Tree, cache: Path, saved: Path, rel: Path)
    requires forall q :: q in t0 && IsPrefix(cache, q) ==> q == cache
    requires t1.Keys == t0.Keys + {saved}
    requires |rel| > 0 && cache + rel != saved
    ensures cache + rel !in t1
  {
    assert IsPrefix(cache, cache + rel);
  }


  lemma FetchOne(tree: Tree, bundle: Bundle, archives: map<string, Archive>, cache: Path)
    requires Fetch(tree, cache, bundle.url, archives).Ok?
    ensures FetchAll(tree, [bundle], archives, cache)
            == Effect(Fetch(tree, cache, bundle.url, archives).value, [Downloaded(bundle.name, bundle.url, cache)], Completed)
  {
    assert [bundle][1..] == [];
  }

  /** The saved zip file is skipped and the unpacked directory matches. */
  lemma FoundBesideZip(t: Tree, cache: Path, zip: string, top: string, requirement: string)
    requires cache in t && t[cache] == Dir([zip, top]) && cache + [zip] in t && t[cache + [zip]] == File([])
    requires IsDir(t, cache + [top]) && IsDir(t, cache + [top, LibDirName])
             && IsDir(t, cache + [top, LibDirName, requirement])
    ensures Find(t, cache, requirement) == Ok(cache + [top, LibDirName, requirement])
  {
    var p1, p3 := cache + [top], cache + [top, LibDirName, requirement];
    assert p1 + [LibDirName] == cache + [top, LibDirName] && cache + [top, LibDirName] + [requirement] == p3;
    assert ProbeBundle(t, cache + [zip], requirement) == Skip;
    assert ProbeBundle(t, p1, requirement) == Hit(p3);
    assert Locate(t, cache, [top], requirement) == Ok(p3);
    assert [zip, top][1..] == [top];
    assert Locate(t, cache, [zip, top], requirement) == Ok(p3);
  }

  /** Unpacking the single file `top/lib/<requirement>/<file>` next to
      the saved zip file: `os.makedirs` makes `top`, `top/lib` and
      `top/lib/<requirement>` first. */
  lemma UnpackLibrary(t1: Tree, cache: Path, zip: string, top: string, requirement: string, file: string,
                      lines: seq<string>) returns (t5: Tree)
    requires cache in t1 && t1[cache] == Dir([zip]) && cache + [zip] in t1 && t1[cache + [zip]] == File([])
    requires top != zip && cache + [top] !in t1 && cache + [top, LibDirName] !in t1
             && cache + [top, LibDirName, requirement] !in t1 && cache + [top, LibDirName, requirement, file] !in t1
    ensures Extract(t1, cache, [FileEntry([top, LibDirName, requirement, file], lines)]) == Ok(t5)
    ensures cache in t5 && t5[cache] == Dir([zip, top]) && cache + [zip] in t5 && t5[cache + [zip]] == File([])
    ensures IsDir(t5, cache + [top]) && IsDir(t5, cache + [top, LibDirName])
            && IsDir(t5, cache + [top, LibDirName, requirement])
  {
    var member := FileEntry([top, LibDirName, requirement, file], lines);
    var p3, p4 := cache + [top, LibDirName, requirement], cache + [top, LibDirName, requirement, file];
    var tc := MakeLibraryDirs(t1, cache, zip, top, requirement, file);
    assert cache + member.path == p4 && Parent(p4) == p3 && |p4| == |cache| + 4;
    t5 := WriteFile(tc, p4, lines).value;
    WriteFileEffect(tc, p4, lines);
    assert p4 != cache && p4 != cache + [zip] && p4 != cache + [top] && p4 != cache + [top, LibDirName];
    assert ExtractMember(t1, cache, member) == Ok(t5);
    assert [member][1..] == [];
  }

  /** `os.makedirs` of `top/lib/<requirement>` in the cache that holds
      only the saved zip file. */
  lemma MakeLibraryDirs(t1: Tree, cache: Path, zip: string, top: string, requirement: string, file: string)
    returns (tc: Tree)
    requires cache in t1 && t1[cache] == Dir([zip]) && cache + [zip] in t1 && t1[cache + [zip]] == File([])
    requires top != zip && cache + [top] !in t1 && cache + [top, LibDirName] !in t1
             && cache + [top, LibDirName, requirement] !in t1 && cache + [top, LibDirName, requirement, file] !in t1
    ensures MakeDirs(t1, cache + [top, LibDirName, requirement]) == Ok(tc)
    ensures cache in tc && tc[cache] == Dir([zip, top]) && cache + [zip] in tc && tc[cache + [zip]] == File([])
    ensures IsDir(tc, cache + [top]) && IsDir(tc, cache + [top, LibDirName])
            && IsDir(tc, cache + [top, LibDirName, requirement])
            && cache + [top, LibDirName, requirement, file] !in tc
  {
    var ta, tb;
    ta, tb, tc := MakeLibraryChain(t1, cache, top, requirement, file);
    LibraryDirsFacts(t1, ta, tb, tc, cache, zip, top, requirement, file);
  }

  /** The three `os.mkdir` calls that `os.makedirs` makes for a library
      directory two levels below a new top directory. */
  lemma MakeLibraryChain(t1: Tree, cache: Path, top: string, requirement: string, file: string)
    returns (ta: Tree, tb: Tree, tc: Tree)
    requires IsDir(t1, cache) && cache + [top] !in t1 && cache + [top, LibDirName] !in t1
             && cache + [top, LibDirName, requirement] !in t1
    ensures MakeDirs(t1, cache + [top, LibDirName, requirement]) == Ok(tc)
    ensures MakeChildOf(t1, cache, top, ta) && MakeChildOf(ta, cache + [top], LibDirName, tb)
            && MakeChildOf(tb, cache + [top, LibDirName], requirement, tc)
  {
    var p1, p2, p3 := cache + [top], cache + [top, LibDirName], cache + [top, LibDirName, requirement];
    assert p2 == p1 + [LibDirName] && p3 == p2 + [requirement];
    assert |p1| == |cache| + 1 && |p2| == |cache| + 2 && |p3| == |cache| + 3;
    ta := MakeChild(t1, cache, top);
    MakeDirsBase(t1, p1, ta);
    tb := MakeChild(ta, p1, LibDirName);
    MakeDirsStep(t1, p2, ta, tb);
    tc := MakeChild(tb, p2, requirement);
    MakeDirsStep(t1, p3, tb, tc);
  }

  /** What the three directories made by `MakeLibraryChain` leave in the
      cache that held only the saved zip file. */
  lemma LibraryDirsFacts(t1: Tree, ta: Tree, tb: Tree, tc: Tree, cache: Path, zip: string, top: string,
                         requirement: string, file: string)
    requires cache in t1 && t1[cache] == Dir([zip]) && cache + [zip] in t1 && t1[cache + [zip]] == File([])
    requires top != zip && cache + [top, LibDirName, requirement, file] !in t1
    requires MakeChildOf(t1, cache, top, ta) && MakeChildOf(ta, cache + [top], LibDirName, tb)
             && MakeChildOf(tb, cache + [top, LibDirName], requirement, tc)
    ensures cache in tc && tc[cache] == Dir([zip, top]) && cache + [zip] in tc && tc[cache + [zip]] == File([])
    ensures IsDir(tc, cache + [top]) && IsDir(tc, cache + [top, LibDirName])
            && IsDir(tc, cache + [top, LibDirName, requirement])
            && cache + [top, LibDirName, requirement, file] !in tc
  {
    var p1, p2, p3 := cache + [top], cache + [top, LibDirName], cache + [top, LibDirName, requirement];
    var p4 := cache + [top, LibDirName, requirement, file];
    assert p2 == p1 + [LibDirName] && p3 == p2 + [requirement];
    assert |p1| == |cache| + 1 && |p2| == |cache| + 2 && |p3| == |cache| + 3 && |p4| == |cache| + 4;
    assert (cache + [zip])[|cache|] == zip && p1[|cache|] == top;
    assert cache + [zip] != p1 && cache + [zip] != p2 && cache + [zip] != p3;
    assert [zip] + [top] == [zip, top];
  }

  /** `r` is `t` after `os.mkdir` of a new name in a directory: the
      directory lists the name last, the name is an empty directory, and
      nothing else changes. */
  ghost predicate MakeChildOf(t: Tree, parent: Path, name: string, r: Tree)
  {
    && parent in t && t[parent].Dir? && parent in r && r[parent] == Dir(t[parent].listing + [name])
    && parent + [name] in r && r[parent + [name]] == Dir([])
    && (forall q :: q != parent && q != parent + [name] ==> (q in r <==> q in t) && (q in t ==> r[q] == t[q]))
  }

  /** `os.mkdir` of a new name in a directory. */
  lemma MakeChild(t: Tree, parent: Path, name: string) returns (r: Tree)
    requires IsDir(t, parent) && parent + [name] !in t
    ensures MakeDir(t, parent + [name]) == Ok(r) && MakeChildOf(t, parent, name, r)
  {
    assert Parent(parent + [name]) == parent && Last(parent + [name]) == name;
    r := MakeDir(t, parent + [name]).value;
  }

  /** `os.makedirs` with the parent in place is `os.mkdir`. */
  lemma MakeDirsBase(t: Tree, p: Path, r: Tree)
    requires |p| > 0 && Exists(t, Parent(p)) && MakeDir(t, p) == Ok(r)
    ensures MakeDirs(t, p) == Ok(r)
  {
  }

  /** `os.makedirs` with the parent missing makes the parent first. */
  lemma MakeDirsStep(t: Tree, p: Path, above: Tree, r: Tree)
    requires |p| > 0 && !Exists(t, Parent(p)) && MakeDirs(t, Parent(p)) == Ok(above) && MakeDir(above, p) == Ok(r)
    ensures MakeDirs(t, p) == Ok(r)
  {
  }

  /** `download_requirements_bundles(bundles, cache)` */
  method DownloadRequirementsBundles(disk: Disk, bundles: seq<Bundle>, archives: map<string, Archive>, cache: Path)
    returns (status: Status)
    modifies disk
    ensures var e := PlanDownload(old(disk.tree), bundles, archives, cache);
            disk.tree == e.tree && disk.log == old(disk.log) + e.actions && status == e.status
  {
    if IsDir(disk.tree, cache) {
      AppendEmpty(disk.log);
      return Completed;
    }
    var made := disk.MakeDirectory(cache);
    if made.Fail? {
      AppendEmpty(disk.log);
      return Failed(made.error);
    }
    ghost var full := FetchAll(disk.tree, bundles, archives, cache);
    ghost var done: seq<Action> := [];
    DropNone(bundles);
    AppendEmpty(disk.log);
    for i := 0 to |bundles|
      invariant disk.log == old(disk.log) + done
      invariant var rest := FetchAll(disk.tree, bundles[i..], archives, cache);
                full == Effect(rest.tree, done + rest.actions, rest.status)
    {
      DropOneMore(bundles, i);
      ghost var action := Downloaded(bundles[i].name, bundles[i].url, cache);
      var got := disk.Download(bundles[i].name, bundles[i].url, cache, archives);
      if got.Fail? {
        AppendEmpty(done);
        return Failed(got.error);
      }
      ghost var rest := FetchAll(disk.tree, bundles[i + 1..], archives, cache);
      AppendAssoc(done, [action], rest.actions);
      AppendAssoc(old(disk.log), done, [action]);
      done := done + [action];
    }
    AppendEmpty(done);
    return Completed;
  }

  // ---------------------------------------------------------------------
  // Locating a requirement in the cache

  /** What looking at one cache entry tells `find_requirement_location`. */
  datatype Probe = Skip | NoLib | Miss | Hit(path: Path)

  function ProbeBundle(tree: Tree, bundle: Path, requirement: string): Probe {
    if !IsDir(tree, bundle) then Skip
    else
      var lib := bundle + [LibDirName];
      if !IsDir(tree, lib) then NoLib
      else if IsDir(tree, lib + [requirement]) then Hit(lib + [requirement])
      // os.path.join(lib_dir, requirement, '.py'): a file named `.py` inside `lib/<requirement>`
      else if Exists(tree, lib + [requirement, ".py"]) then Hit(lib + [requirement, ".py"])
      else Miss
  }

  predicate Passes(p: Probe) {
    p.Skip? || p.Miss?
  }

  /** The search over the cache entries `names`, in order. */
  function Locate(tree: Tree, cache: Path, names: seq<string>, requirement: string): Result<Path, Error> {
    if names == [] then Err(RequirementNotFound(requirement))
    else match ProbeBundle(tree, cache + [names[0]], requirement)
      case Skip => Locate(tree, cache, names[1..], requirement)
      case Miss => Locate(tree, cache, names[1..], requirement)
      case NoLib => Err(NoLibDirectory(cache + [names[0]]))
      case Hit(p) => Ok(p)
  }

  function Find(tree: Tree, cache: Path, requirement: string): Result<Path, Error> {
    match ListDir(tree, cache)
    case Err(e) => Err(e)
    case Ok(names) => Locate(tree, cache, names, requirement)
  }

  /** `find_requirement_location(requirement, cache)` */
  method FindRequirementLocation(tree: Tree, requirement: string, cache: Path) returns (r: Result<Path, Error>)
    ensures r == Find(tree, cache, requirement)
  {
    var listed := ListDir(tree, cache);
    if listed.Err? {
      return Err(listed.error);
    }
    var names := listed.value;
    for i := 0 to |names|
      invariant Locate(tree, cache, names, requirement) == Locate(tree, cache, names[i..], requirement)
    {
      DropOneMore(names, i);
      var dirpath := cache + [names[i]];
      if !IsDir(tree, dirpath) {
        continue;
      }
      var libDir := dirpath + [LibDirName];
      if !IsDir(tree, libDir) {
        return Err(NoLibDirectory(dirpath));
      }
      var packageDir := libDir + [requirement];
      if IsDir(tree, packageDir) {
        return Ok(packageDir);
      }
      var packageModule := libDir + [requirement, ".py"];
      if Exists(tree, packageModule) {
        return Ok(packageModule);
      }
    }
    return Err(RequirementNotFound(requirement));
  }

  /** On a disk where every entry sits inside a directory, the second test
      of a probe never matches first: `lib/<requirement>/.py` can only
      exist inside the directory `lib/<requirement>`, which the first test
      already returns. */
  lemma ModuleTestNeverDecides(tree: Tree, bundle: Path, requirement: string)
    requires Closed(tree)
    ensures ProbeBundle(tree, bundle, requirement).Hit? ==>
              ProbeBundle(tree, bundle, requirement).path == bundle + [LibDirName, requirement]
  {
    var lib := bundle + [LibDirName];
    var pyPath := lib + [requirement, ".py"];
    assert Parent(pyPath) == lib + [requirement];
  }

  /** A single-file module `lib/<requirement>.py` is not recognised: such a
      bundle misses the requirement. */
  lemma SingleFileModuleIsMissed(tree: Tree, bundle: Path, requirement: string)
    requires Closed(tree) && IsDir(tree, bundle + [LibDirName])
    requires Exists(tree, bundle + [LibDirName, requirement + ".py"])
    requires !Exists(tree, bundle + [LibDirName, requirement])
    ensures ProbeBundle(tree, bundle, requirement) == Miss
  {
    var lib := bundle + [LibDirName];
    assert Parent(lib) == bundle;
    assert lib + [requirement] == bundle + [LibDirName, requirement];
    var pyPath := lib + [requirement, ".py"];
    assert Parent(pyPath) == lib + [requirement];
  }

  /** First match wins: the first bundle that has the requirement supplies
      it, whatever later bundles hold. */
  lemma {:induction false} LocateFirstHit(tree: Tree, cache: Path, names: seq<string>, requirement: string, i: nat)
    requires i < |names| && ProbeBundle(tree, cache + [names[i]], requirement).Hit?
    requires forall j :: 0 <= j < i ==> Passes(ProbeBundle(tree, cache + [names[j]], requirement))
    ensures Locate(tree, cache, names, requirement) == Ok(ProbeBundle(tree, cache + [names[i]], requirement).path)
  {
    if i > 0 {
      LocateFirstHit(tree, cache, names[1..], requirement, i - 1);
    }
  }

  /** A bundle directory without `lib` is fatal as soon as it is met, even
      when a later bundle has the requirement. */
  lemma {:induction false} LocateNoLibIsFatal(tree: Tree, cache: Path, names: seq<string>, requirement: string, i: nat)
    requires i < |names| && ProbeBundle(tree, cache + [names[i]], requirement) == NoLib
    requires forall j :: 0 <= j < i ==> Passes(ProbeBundle(tree, cache + [names[j]], requirement))
    ensures Locate(tree, cache, names, requirement) == Err(NoLibDirectory(cache + [names[i]]))
  {
    if i > 0 {
      LocateNoLibIsFatal(tree, cache, names[1..], requirement, i - 1);
    }
  }

  /** Not found exactly when every entry is skipped or misses. */
  lemma {:induction false} LocateNotFound(tree: Tree, cache: Path, names: seq<string>, requirement: string)
    ensures Locate(tree, cache, names, requirement) == Err(RequirementNotFound(requirement)) <==>
            forall j :: 0 <= j < |names| ==> Passes(ProbeBundle(tree, cache + [names[j]], requirement))
  {
    if names != [] {
      LocateNotFound(tree, cache, names[1..], requirement);
      assert forall j :: 1 <= j < |names| ==> names[1..][j - 1] == names[j];
    }
  }

  /** Every located path lies under the `lib` directory of some bundle
      directory of the cache, and names the requirement there. */
  lemma {:induction false} LocateUnderLib(tree: Tree, cache: Path, names: seq<string>, requirement: string)
    ensures var r := Locate(tree, cache, names, requirement);
            r.Ok? ==> var n := |cache|;
              |r.value| >= n + 3 && r.value[..n] == cache && r.value[n + 1] == LibDirName
              && r.value[n + 2] == requirement && IsDir(tree, r.value[..n + 2])
              && r.value[n] in names
  {
    if names != [] {
      LocateUnderLib(tree, cache, names[1..], requirement);
      var r := Locate(tree, cache, names, requirement);
      if ProbeBundle(tree, cache + [names[0]], requirement).Hit? {
        assert r.value[..|cache| + 2] == cache + [names[0], LibDirName];
      }
    }
  }

  // ---------------------------------------------------------------------
  // Copying the requirements

  datatype Copies = Copies(actions: seq<Action>, status: Status)

  /** Locate and copy each requirement in turn; the first failure stops. */
  function CopyRequirements(tree: Tree, cache: Path, requirements: seq<string>, dest: Path): Copies {
    if requirements == [] then Copies([], Completed)
    else match Find(tree, cache, requirements[0])
      case Err(e) => Copies([], Failed(e))
      case Ok(p) =>
        var rest := CopyRequirements(tree, cache, requirements[1..], dest);
        Copies([Copied(p, dest)] + rest.actions, rest.status)
  }

  /** Requirements are copied in manifest order, each from where it was
      found; the first one that cannot be found ends the phase with its
      error, and the copies before it stand. */
  lemma {:induction false} CopiesFollowManifest(tree: Tree, cache: Path, requirements: seq<string>, dest: Path)
    ensures var c := CopyRequirements(tree, cache, requirements, dest);
            |c.actions| <= |requirements|
            && (forall i :: 0 <= i < |c.actions| ==>
                  Find(tree, cache, requirements[i]).Ok?
                  && c.actions[i] == Copied(Find(tree, cache, requirements[i]).value, dest))
            && (c.status == Completed <==> |c.actions| == |requirements|)
            && (|c.actions| < |requirements| ==>
                  Find(tree, cache, requirements[|c.actions|]).Err?
                  && c.status == Failed(Find(tree, cache, requirements[|c.actions|]).error))
  {
    if requirements != [] {
      CopiesFollowManifest(tree, cache, requirements[1..], dest);
    }
  }

  /** The requirements destination, created when it is not a directory yet. */
  function Destination(tree: Tree, dest: Path): (r: Result<Tree, Error>)
    ensures r.Ok? ==> IsDir(r.value, dest)
  {
    if IsDir(tree, dest) then Ok(tree) else MakeDir(tree, dest)
  }

  /** Download the bundles, read the manifest, then copy each requirement. */
  function PlanInstall(tree: Tree, manifest: Path, dest: Path, bundles: seq<Bundle>, archives: map<string, Archive>,
                       cache: Path): Effect
  {
    var d := PlanDownload(tree, bundles, archives, cache);
    if d.status != Completed then d
    else match ReadManifest(d.tree, manifest)
      case Err(e) => Effect(d.tree, d.actions, Failed(e))
      case Ok(requirements) =>
        var c := CopyRequirements(d.tree, cache, requirements, dest);
        Effect(d.tree, d.actions + c.actions, c.status)
  }

  function PlanRequirements(tree: Tree, manifest: Path, dest: Path, bundles: seq<Bundle>, archives: map<string, Archive>,
                            cache: Path): Effect
  {
    if !Exists(tree, manifest) then Effect(tree, [], Completed)
    else match Destination(tree, dest)
      case Err(e) => Effect(tree, [], Failed(e))
      case Ok(withDest) => PlanInstall(withDest, manifest, dest, bundles, archives, cache)
  }

  /** Without a manifest nothing happens, not even the creation of the
      destination; with one, the destination is a directory afterwards
      whenever it could be created and does not lie inside the cache. */
  lemma RequirementsPhaseDestination(tree: Tree, manifest: Path, dest: Path, bundles: seq<Bundle>,
                                     archives: map<string, Archive>, cache: Path)
    ensures !Exists(tree, manifest) ==> PlanRequirements(tree, manifest, dest, bundles, archives, cache) == Effect(tree, [], Completed)
    ensures Exists(tree, manifest) && (IsDir(tree, dest) || MakeDir(tree, dest).Ok?) && !IsPrefix(cache, dest) ==>
              IsDir(PlanRequirements(tree, manifest, dest, bundles, archives, cache).tree, dest)
  {
    if Exists(tree, manifest) && Destination(tree, dest).Ok? && !IsPrefix(cache, dest) {
      var withDest := Destination(tree, dest).value;
      assert PlanInstall(withDest, manifest, dest, bundles, archives, cache).tree
             == PlanDownload(withDest, bundles, archives, cache).tree;
      DownloadKeepsDir(withDest, bundles, archives, cache, dest);
    }
  }

  /** A directory outside the cache is still one after the download phase. */
  lemma DownloadKeepsDir(tree: Tree, bundles: seq<Bundle>, archives: map<string, Archive>, cache: Path, q: Path)
    requires IsDir(tree, q) && !IsPrefix(cache, q)
    ensures IsDir(PlanDownload(tree, bundles, archives, cache).tree, q)
  {
    if !IsDir(tree, cache) && MakeDir(tree, cache).Ok? {
      FetchAllOutside(MakeDir(tree, cache).value, bundles, archives, cache, q);
    }
  }

  /** `download_and_copy_requirements(manifest, dest, bundles, cache)` */
  method DownloadAndCopyRequirements(disk: Disk, manifest: Path, dest: Path, bundles: seq<Bundle>,
                                     archives: map<string, Archive>, cache: Path)
    returns (status: Status)
    modifies disk
    ensures var e := PlanRequirements(old(disk.tree), manifest, dest, bundles, archives, cache);
            disk.tree == e.tree && disk.log == old(disk.log) + e.actions && status == e.status
  {
    if !Exists(disk.tree, manifest) {
      AppendEmpty(disk.log);
      return Completed;
    }
    if !IsDir(disk.tree, dest) {
      var made := disk.MakeDirectory(dest);
      if made.Fail? {
        AppendEmpty(disk.log);
        return Failed(made.error);
      }
    }
    status := Install(disk, manifest, dest, bundles, archives, cache);
  }

  /** The part of `download_and_copy_requirements` after the destination exists. */
  method Install(disk: Disk, manifest: Path, dest: Path, bundles: seq<Bundle>, archives: map<string, Archive>, cache: Path)
    returns (status: Status)
    modifies disk
    ensures var e := PlanInstall(old(disk.tree), manifest, dest, bundles, archives, cache);
            disk.tree == e.tree && disk.log == old(disk.log) + e.actions && status == e.status
  {
    status := DownloadRequirementsBundles(disk, bundles, archives, cache);
    if status != Completed {
      return;
    }
    ghost var log1 := disk.log;
    var read := ReadRequirementsFile(disk.tree, manifest);
    if read.Err? {
      return Failed(read.error);
    }
    status := CopyEach(disk, read.value, dest, cache);
    AppendAssoc(old(disk.log), log1[|old(disk.log)|..], disk.log[|log1|..]);
  }

  /** The loop of `download_and_copy_requirements` that locates each
      requirement and copies it into the destination. */
  method CopyEach(disk: Disk, requirements: seq<string>, dest: Path, cache: Path) returns (status: Status)
    modifies disk
    ensures var c := CopyRequirements(old(disk.tree), cache, requirements, dest);
            disk.tree == old(disk.tree) && disk.log == old(disk.log) + c.actions && status == c.status
  {
    ghost var full := CopyRequirements(disk.tree, cache, requirements, dest);
    ghost var done: seq<Action> := [];
    DropNone(requirements);
    AppendEmpty(disk.log);
    for i := 0 to |requirements|
      invariant disk.tree == old(disk.tree)
      invariant disk.log == old(disk.log) + done
      invariant var rest := CopyRequirements(disk.tree, cache, requirements[i..], dest);
                full.actions == done + rest.actions && full.status == rest.status
    {
      ghost var now := CopyRequirements(disk.tree, cache, requirements[i..], dest);
      DropOneMore(requirements, i);
      var packageLocation := FindRequirementLocation(disk.tree, requirements[i], cache);
      if packageLocation.Err? {
        AppendEmpty(done);
        return Failed(packageLocation.error);
      }
      ghost var rest := CopyRequirements(disk.tree, cache, requirements[i + 1..], dest);
      assert now.actions == [Copied(packageLocation.value, dest)] + rest.actions;
      AppendAssoc(done, [Copied(packageLocation.value, dest)], rest.actions);
      AppendAssoc(old(disk.log), done, [Copied(packageLocation.value, dest)]);
      disk.Copy(packageLocation.value, dest);
      done := done + [Copied(packageLocation.value, dest)];
    }
    AppendEmpty(done);
    return Completed;
  }

  // ---------------------------------------------------------------------
  // The script's main block

  /** What the main block does once the project directory is known: wipe
      the target, copy the project onto it, then install the requirements. */
  function PlanProject(tree: Tree, target: Path, project: Path, confirm: bool, answers: seq<string>,
                       archives: map<string, Archive>, cache: Path): Effect
  {
    var d := PlanDeletion(tree, target, confirm, answers);
    var cleared := RemoveAll(tree, d.removed);
    if d.status != Completed then Effect(cleared, Removals(d.removed), d.status)
    else
      var r := PlanRequirements(cleared, project + [RequirementsFileName], target + [LibDirName],
                                RequirementsBundles, archives, cache);
      Effect(r.tree, Removals(d.removed) + [Copied(project + ["*"], target)] + r.actions, r.status)
  }

  /** `get_project_dir(projects_dir, project_name)` in the main block: the
      name is the first console input when none is given; the project
      directory comes back with the inputs left for the deletion prompts. */
  function Resolve(tree: Tree, projectsDir: Path, projectName: Option<string>, inputs: seq<string>)
    : (r: Result<(Path, seq<string>), Error>)
    ensures projectName.None? && inputs == [] ==> r == Err(EndOfInput)
    ensures projectName.Some? || inputs != [] ==>
              var name := if projectName.Some? then projectName.value else inputs[0];
              var p := Projects.GetProjectDir(tree, projectsDir, name);
              (r.Err? <==> p.Err?)
              && (p.Err? ==> r.error == p.error)
              && (p.Ok? ==> r.value == (p.value, if projectName.Some? then inputs else inputs[1..]))
  {
    if projectName.None? && inputs == [] then Err(EndOfInput)
    else
      var name := if projectName.Some? then projectName.value else inputs[0];
      var answers := if projectName.Some? then inputs else inputs[1..];
      match Projects.GetProjectDir(tree, projectsDir, name)
      case Err(e) => Err(e)
      case Ok(project) => Ok((project, answers))
  }

  function PlanDeploy(tree: Tree, target: Path, projectsDir: Path, projectName: Option<string>,
                      confirm: bool, inputs: seq<string>, archives: map<string, Archive>, cache: Path): Effect
  {
    if !IsDir(tree, target) then Effect(tree, [], Failed(TargetNotMounted(target)))
    else match Resolve(tree, projectsDir, projectName, inputs)
      case Err(e) => Effect(tree, [], Failed(e))
      case Ok((project, answers)) => PlanProject(tree, target, project, confirm, answers, archives, cache)
  }

  predicate IsRemoval(a: Action) {
    a.Removed?
  }

  lemma {:induction false} CopiesRemoveNothing(tree: Tree, cache: Path, requirements: seq<string>, dest: Path)
    ensures var c := CopyRequirements(tree, cache, requirements, dest);
            (forall a :: a in c.actions ==> a.Copied?) && !c.status.Exited?
  {
    if requirements != [] {
      CopiesRemoveNothing(tree, cache, requirements[1..], dest);
    }
  }

  /** The requirements phase only copies and downloads, and never ends
      the run through `sys.exit`. */
  lemma RequirementsRemoveNothing(tree: Tree, manifest: Path, dest: Path, bundles: seq<Bundle>,
                                  archives: map<string, Archive>, cache: Path)
    ensures var r := PlanRequirements(tree, manifest, dest, bundles, archives, cache);
            (forall a :: a in r.actions ==> !IsRemoval(a)) && !r.status.Exited?
  {
    if Exists(tree, manifest) && Destination(tree, dest).Ok? {
      var withDest := Destination(tree, dest).value;
      var dl := PlanDownload(withDest, bundles, archives, cache);
      if !IsDir(withDest, cache) && MakeDir(withDest, cache).Ok? {
        FetchAllLog(MakeDir(withDest, cache).value, bundles, archives, cache);
        FetchAllStops(MakeDir(withDest, cache).value, bundles, archives, cache);
        DownloadsInOrder(bundles[..|dl.actions|], cache);
      }
      if dl.status == Completed {
        var rd := ReadManifest(dl.tree, manifest);
        if rd.Ok? {
          CopiesRemoveNothing(dl.tree, cache, rd.value, dest);
        }
      }
    }
  }

  lemma {:induction false} RemovalsAreRemovals(ps: seq<Path>)
    ensures forall a :: a in Removals(ps) ==> IsRemoval(a)
  {
    if ps != [] {
      RemovalsAreRemovals(ps[..|ps| - 1]);
    }
  }

  /** Removals come first, then the project copy, then the requirements'
      downloads and copies, none of which removes anything; a deletion that
      does not complete leaves only its removals. */
  lemma ProjectOrder(tree: Tree, target: Path, project: Path, confirm: bool, answers: seq<string>,
                     archives: map<string, Archive>, cache: Path)
    ensures var e := PlanProject(tree, target, project, confirm, answers, archives, cache);
            var d := PlanDeletion(tree, target, confirm, answers);
            var n := |Removals(d.removed)|;
            n <= |e.actions| && e.actions[..n] == Removals(d.removed)
            && (forall a :: a in e.actions[..n] ==> IsRemoval(a))
            && (d.status != Completed ==> e.actions == Removals(d.removed) && e.status == d.status)
            && (d.status == Completed ==>
                  n < |e.actions| && e.actions[n] == Copied(project + ["*"], target)
                  && forall a :: a in e.actions[n + 1..] ==> !IsRemoval(a))
            && (e.status.Exited? ==> forall a :: a in e.actions ==> IsRemoval(a))
  {
    var d := PlanDeletion(tree, target, confirm, answers);
    var cleared := RemoveAll(tree, d.removed);
    var rs := Removals(d.removed);
    RemovalsAreRemovals(d.removed);
    if d.status == Completed {
      var r := PlanRequirements(cleared, project + [RequirementsFileName], target + [LibDirName],
                                RequirementsBundles, archives, cache);
      RequirementsRemoveNothing(cleared, project + [RequirementsFileName], target + [LibDirName],
                                RequirementsBundles, archives, cache);
      SplitAtCopy(rs, Copied(project + ["*"], target), r.actions);
    }
  }

  lemma SplitAtCopy(rs: seq<Action>, c: Action, rest: seq<Action>)
    ensures var all := rs + [c] + rest;
            |rs| < |all| && all[..|rs|] == rs && all[|rs|] == c && all[|rs| + 1..] == rest
  {
    var all := rs + [c] + rest;
    assert all[..|rs|] == rs;
    assert all[|rs| + 1..] == rest;
  }

  /** The main block's order: nothing happens unless the target is mounted
      and the project resolves; then every removal comes before the project
      copy, which comes before every download and requirement copy, and
      nothing is copied once the deletion has stopped. */
  lemma DeployOrder(tree: Tree, target: Path, projectsDir: Path, projectName: Option<string>,
                    confirm: bool, inputs: seq<string>, archives: map<string, Archive>, cache: Path)
    ensures var e := PlanDeploy(tree, target, projectsDir, projectName, confirm, inputs, archives, cache);
            var r := Resolve(tree, projectsDir, projectName, inputs);
            (!IsDir(tree, target) ==> e == Effect(tree, [], Failed(TargetNotMounted(target))))
            && (IsDir(tree, target) && r.Err? ==> e == Effect(tree, [], Failed(r.error)))
            && (IsDir(tree, target) && r.Ok? ==>
                  var d := PlanDeletion(tree, target, confirm, r.value.1);
                  var n := |Removals(d.removed)|;
                  n <= |e.actions| && (forall a :: a in e.actions[..n] ==> IsRemoval(a))
                  && (d.status != Completed ==> e.actions == Removals(d.removed) && e.status == d.status)
                  && (d.status == Completed ==>
                        n < |e.actions| && e.actions[n] == Copied(r.value.0 + ["*"], target)
                        && forall a :: a in e.actions[n + 1..] ==> !IsRemoval(a)))
            && (e.status.Exited? ==> forall a :: a in e.actions ==> IsRemoval(a))
  {
    var r := Resolve(tree, projectsDir, projectName, inputs);
    if IsDir(tree, target) && r.Ok? {
      ProjectOrder(tree, target, r.value.0, confirm, r.value.1, archives, cache);
    }
  }

  /** Pressing Enter at the name prompt resolves to the projects directory
      itself, so every project is copied onto the board. */
  lemma EmptyNameCopiesEveryProject(tree: Tree, target: Path, projectsDir: Path, confirm: bool,
                                    inputs: seq<string>, archives: map<string, Archive>, cache: Path)
    requires IsDir(tree, target) && IsDir(tree, projectsDir) && inputs != [] && inputs[0] == ""
    ensures var e := PlanDeploy(tree, target, projectsDir, None, confirm, inputs, archives, cache);
            var d := PlanDeletion(tree, target, confirm, inputs[1..]);
            d.status == Completed ==> Copied(projectsDir + ["*"], target) in e.actions
  {
    Projects.EmptyNameIsProjectsDir(tree, projectsDir);
    ProjectOrder(tree, target, projectsDir, confirm, inputs[1..], archives, cache);
  }

  /** The script's main block: check the target, resolve the project (asking
      for its name on the console when none is given), then deploy it. */
  method Run(disk: Disk, target: Path, projectsDir: Path, projectName: Option<string>,
             confirm: bool, inputs: seq<string>, archives: map<string, Archive>, cache: Path) returns (status: Status)
    modifies disk
    ensures var e := PlanDeploy(old(disk.tree), target, projectsDir, projectName, confirm, inputs, archives, cache);
            disk.tree == e.tree && disk.log == old(disk.log) + e.actions && status == e.status
  {
    AppendEmpty(disk.log);
    if !IsDir(disk.tree, target) {
      return Failed(TargetNotMounted(target));
    }
    var name, answers;
    if projectName.Some? {
      name, answers := projectName.value, inputs;
    } else {
      if inputs == [] {
        return Failed(EndOfInput);
      }
      name, answers := inputs[0], inputs[1..];
    }
    var project := Projects.GetProjectDir(disk.tree, projectsDir, name);
    if project.Err? {
      return Failed(project.error);
    }
    status := DeployProject(disk, target, project.value, confirm, answers, archives, cache);
  }

  /** Delete the target's files, copy the project onto it, install its requirements. */
  method DeployProject(disk: Disk, target: Path, project: Path, confirm: bool, answers: seq<string>,
                       archives: map<string, Archive>, cache: Path)
    returns (status: Status)
    modifies disk
    ensures var e := PlanProject(old(disk.tree), target, project, confirm, answers, archives, cache);
            disk.tree == e.tree && disk.log == old(disk.log) + e.actions && status == e.status
  {
    ghost var d := PlanDeletion(disk.tree, target, confirm, answers);
    var used;
    status, used := DeleteFiles(disk, target, confirm, answers);
    if status != Completed {
      return;
    }
    disk.Copy(project + ["*"], target);
    ghost var r := PlanRequirements(disk.tree, project + [RequirementsFileName], target + [LibDirName],
                                    RequirementsBundles, archives, cache);
    status := DownloadAndCopyRequirements(disk, project + [RequirementsFileName], target + [LibDirName],
                                          RequirementsBundles, archives, cache);
    AppendAssocThree(old(disk.log), Removals(d.removed), [Copied(project + ["*"], target)], r.actions);
  }
}
