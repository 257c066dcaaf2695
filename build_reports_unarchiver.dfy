/**
 * Extraction of a build-reports archive into a job directory: the zip-slip
 * guard, the classification of extracted paths into the build report and the
 * Surefire, Failsafe and Gradle test-results directories, the path-ordered
 * set of test-results paths, and module-name derivation.
 */
module BuildReportsUnarchiver {
  import opened Wrappers
  import opened Paths
  import opened FileSystems

  /** The build report every job writes (kept in `WorkflowConstants`). */
  const BUILD_REPORT_PATH: Path := ["target", "build-report.json"]
  const MAVEN_SUREFIRE_REPORTS_PATH: Path := ["target", "surefire-reports"]
  const MAVEN_FAILSAFE_REPORTS_PATH: Path := ["target", "failsafe-reports"]
  const GRADLE_REPORTS_PATH: Path := ["build", "test-results", "test"]

  // ---------------------------------------------------------------------------
  // Test-results paths
  // ---------------------------------------------------------------------------

  /** A directory of test results, tagged with the build tool that wrote it. */
  datatype TestResultsPath = Surefire(path: Path) | Failsafe(path: Path) | Gradle(path: Path)
  {
    /** How many parents `getModuleName` walks up from the report directory. */
    function ReportDepth(): nat {
      if Gradle? then 3 else 2
    }
  }

  /** `getParent` of a relative path: `null` for a single segment or the empty path. */
  function GetParent(p: Path): Option<Path> {
    if |p| <= 1 then None else Some(p[..|p| - 1])
  }

  /** `getParent()` applied `k` times; `None` once a `null` is met. */
  function Ancestor(p: Path, k: nat): Option<Path> {
    if k == 0 then Some(p)
    else match GetParent(p)
      case None => None
      case Some(parent) => Ancestor(parent, k - 1)
  }

  /** Walking up `k > 0` parents drops the last `k` segments, and fails unless
      more than `k` segments are there. */
  lemma {:induction false} AncestorDropsSegments(p: Path, k: nat)
    ensures Ancestor(p, k) == if k == 0 || |p| > k then Some(p[..|p| - k]) else None
  {
    if k == 0 {
      assert p[..|p|] == p;
    } else if |p| > 1 {
      AncestorDropsSegments(p[..|p| - 1], k - 1);
      if |p| > k {
        assert p[..|p| - 1][..|p| - 1 - (k - 1)] == p[..|p| - k];
      }
    }
  }

  /** `getModuleName(jobDirectory)`; `None` is the `NullPointerException`
      raised when the relative path is too short to have that many parents. */
  function GetModuleName(t: TestResultsPath, jobDirectory: Path): Option<string> {
    match Ancestor(Relativize(jobDirectory, t.path), t.ReportDepth())
    case None => None
    case Some(moduleDir) => Some(Join(moduleDir))
  }

  /** The module name of a report directory `<job>/<module dir>/<report dir>` is the
      module directory as `relativize` normalises it below the job directory,
      whatever the build tool; a report directory directly in the job directory has none. */
  lemma ModuleNameOfReportDirectory(t: TestResultsPath, jobDirectory: Path, moduleDir: Path,
                                    reportDir: Path, modulePath: Path)
    requires |reportDir| == t.ReportDepth()
    requires t.path == jobDirectory + moduleDir + reportDir
    requires !HasDots(reportDir) && !HasDots(modulePath)
    requires NormalizeOnto(Normalize(jobDirectory), moduleDir) == Normalize(jobDirectory) + modulePath
    ensures GetModuleName(t, jobDirectory) == if modulePath == [] then None else Some(Join(modulePath))
  {
    var relative := moduleDir + reportDir;
    var normal := modulePath + reportDir;
    assert t.path == jobDirectory + relative;
    NormalizeOntoClean(Normalize(jobDirectory), moduleDir, reportDir, modulePath);
    ModuleNameBelow(t, jobDirectory, relative, normal);
    ModuleDirectoryOf(modulePath, reportDir, t.ReportDepth());
  }

  /** Walking up past the report directory leaves the module directory. */
  lemma ModuleDirectoryOf(modulePath: Path, reportDir: Path, k: nat)
    requires |reportDir| == k && k > 0
    ensures (match Ancestor(modulePath + reportDir, k)
             case None => None
             case Some(moduleDir) => Some(Join(moduleDir))) ==
            if modulePath == [] then None else Some(Join(modulePath))
  {
    var normal := modulePath + reportDir;
    AncestorDropsSegments(normal, k);
    if modulePath != [] {
      assert normal[..|normal| - k] == modulePath;
    }
  }

  /** The module name of a path below the job directory is read off the normal form
      of the part below it. */
  lemma ModuleNameBelow(t: TestResultsPath, jobDirectory: Path, relative: Path, normal: Path)
    requires t.path == jobDirectory + relative
    requires NormalizeOnto(Normalize(jobDirectory), relative) == Normalize(jobDirectory) + normal
    requires !HasDots(normal)
    ensures GetModuleName(t, jobDirectory) == match Ancestor(normal, t.ReportDepth())
                                              case None => None
                                              case Some(moduleDir) => Some(Join(moduleDir))
  {
    RelativizeBelow(jobDirectory, relative, normal);
  }

  /** `<dest>/mymodule/target/surefire-reports` belongs to module `mymodule`, and so does
      `<dest>/mymodule/build/test-results/test`. */
  lemma ModuleNameExamples(jobDirectory: Path)
    ensures GetModuleName(Surefire(jobDirectory + ["mymodule", "target", "surefire-reports"]), jobDirectory)
            == Some("mymodule")
    ensures GetModuleName(Gradle(jobDirectory + ["mymodule", "build", "test-results", "test"]), jobDirectory)
            == Some("mymodule")
  {
    SurefireModuleName(jobDirectory);
    GradleModuleName(jobDirectory);
  }

  lemma SurefireModuleName(jobDirectory: Path)
    ensures GetModuleName(Surefire(jobDirectory + ["mymodule", "target", "surefire-reports"]), jobDirectory)
            == Some("mymodule")
  {
    OneSegment(Normalize(jobDirectory), "mymodule");
    assert jobDirectory + ["mymodule", "target", "surefire-reports"]
        == jobDirectory + ["mymodule"] + MAVEN_SUREFIRE_REPORTS_PATH;
    ModuleNameOfKind(Surefire(jobDirectory + ["mymodule", "target", "surefire-reports"]), jobDirectory,
      ["mymodule"], MAVEN_SUREFIRE_REPORTS_PATH, "mymodule");
  }

  lemma GradleModuleName(jobDirectory: Path)
    ensures GetModuleName(Gradle(jobDirectory + ["mymodule", "build", "test-results", "test"]), jobDirectory)
            == Some("mymodule")
  {
    OneSegment(Normalize(jobDirectory), "mymodule");
    assert jobDirectory + ["mymodule", "build", "test-results", "test"]
        == jobDirectory + ["mymodule"] + GRADLE_REPORTS_PATH;
    ModuleNameOfKind(Gradle(jobDirectory + ["mymodule", "build", "test-results", "test"]), jobDirectory,
      ["mymodule"], GRADLE_REPORTS_PATH, "mymodule");
  }

  /** `relativize` normalises: `<dest>/./m/target/surefire-reports` and
      `<dest>/x/../m/target/surefire-reports` both belong to module `m`. */
  lemma DottedModuleNames(jobDirectory: Path)
    ensures GetModuleName(Surefire(jobDirectory + [".", "m", "target", "surefire-reports"]), jobDirectory)
            == Some("m")
    ensures GetModuleName(Surefire(jobDirectory + ["x", "..", "m", "target", "surefire-reports"]), jobDirectory)
            == Some("m")
  {
    CurrentDirectoryModuleName(jobDirectory);
    ParentDirectoryModuleName(jobDirectory);
  }

  lemma CurrentDirectoryModuleName(jobDirectory: Path)
    ensures GetModuleName(Surefire(jobDirectory + [".", "m", "target", "surefire-reports"]), jobDirectory)
            == Some("m")
  {
    CurrentDirectoryDropped(Normalize(jobDirectory));
    assert jobDirectory + [".", "m", "target", "surefire-reports"]
        == jobDirectory + [".", "m"] + MAVEN_SUREFIRE_REPORTS_PATH;
    ModuleNameOfKind(Surefire(jobDirectory + [".", "m", "target", "surefire-reports"]), jobDirectory,
      [".", "m"], MAVEN_SUREFIRE_REPORTS_PATH, "m");
  }

  lemma ParentDirectoryModuleName(jobDirectory: Path)
    ensures GetModuleName(Surefire(jobDirectory + ["x", "..", "m", "target", "surefire-reports"]), jobDirectory)
            == Some("m")
  {
    ParentDirectoryDropped(Normalize(jobDirectory));
    assert jobDirectory + ["x", "..", "m", "target", "surefire-reports"]
        == jobDirectory + ["x", "..", "m"] + MAVEN_SUREFIRE_REPORTS_PATH;
    ModuleNameOfKind(Surefire(jobDirectory + ["x", "..", "m", "target", "surefire-reports"]), jobDirectory,
      ["x", "..", "m"], MAVEN_SUREFIRE_REPORTS_PATH, "m");
  }

  /** One module directory of one name below a constant report directory. */
  lemma ModuleNameOfKind(t: TestResultsPath, jobDirectory: Path, moduleDir: Path, reportDir: Path,
                         name: string)
    requires reportDir in {MAVEN_SUREFIRE_REPORTS_PATH, GRADLE_REPORTS_PATH}
    requires |reportDir| == t.ReportDepth()
    requires t.path == jobDirectory + moduleDir + reportDir
    requires !IsDot(name)
    requires NormalizeOnto(Normalize(jobDirectory), moduleDir) == Normalize(jobDirectory) + [name]
    ensures GetModuleName(t, jobDirectory) == Some(name)
  {
    var modulePath := [name];
    assert !HasDots(modulePath);
    assert !HasDots(reportDir);
    ModuleNameOfReportDirectory(t, jobDirectory, moduleDir, reportDir, modulePath);
  }

  /** `./m` normalises to `m`. */
  lemma CurrentDirectoryDropped(job: Path)
    ensures NormalizeOnto(job, [".", "m"]) == job + ["m"]
  {
    NormalizeOntoSnoc(job, [], ".");
    assert [] + ["."] == ["."];
    NormalizeOntoSnoc(job, ["."], "m");
    assert ["."] + ["m"] == [".", "m"];
  }

  /** `x/../m` normalises to `m`. */
  lemma ParentDirectoryDropped(job: Path)
    ensures NormalizeOnto(job, ["x", "..", "m"]) == job + ["m"]
  {
    UpAndBack(job);
    NormalizeOntoSnoc(job, ["x", ".."], "m");
    assert ["x", ".."] + ["m"] == ["x", "..", "m"];
  }

  /** `x/..` normalises to nothing. */
  lemma UpAndBack(job: Path)
    ensures NormalizeOnto(job, ["x", ".."]) == job
  {
    NormalizeOntoSnoc(job, ["x"], "..");
    assert ["x"] + [".."] == ["x", ".."];
    OneSegment(job, "x");
    StepBack(job, "x");
  }

  /** A single ordinary segment normalises to itself. */
  lemma OneSegment(job: Path, name: string)
    requires !IsDot(name)
    ensures NormalizeOnto(job, [name]) == job + [name]
  {
    NormalizeOntoSnoc(job, [], name);
    assert [] + [name] == [name];
  }

  /** `compareTo`: test-results paths are ordered by their paths. */
  function CompareTo(a: TestResultsPath, b: TestResultsPath): (c: int)
    ensures c == 0 <==> Render(a.path) == Render(b.path)
  {
    ComparePaths(a.path, b.path)
  }

  /** `compareTo` is antisymmetric, as `Comparable` requires. */
  lemma CompareToAntisymmetric(a: TestResultsPath, b: TestResultsPath)
    ensures CompareTo(b, a) == -CompareTo(a, b)
  {
    CompareAntisymmetric(Render(a.path), Render(b.path));
  }

  // ---------------------------------------------------------------------------
  // The TreeSet of test-results paths
  // ---------------------------------------------------------------------------

  /** Strictly ascending by `compareTo`: ordered, and no two elements compare equal. */
  predicate Ordered(s: seq<TestResultsPath>) {
    forall i, j :: 0 <= i < j < |s| ==> CompareTo(s[i], s[j]) < 0
  }

  /** The contents of a `TreeSet<TestResultsPath>`, in iteration order. */
  type TreeSet = s: seq<TestResultsPath> | Ordered(s) witness []

  /** Whether `s` already holds an element that compares equal to `x`. */
  predicate Holds(s: seq<TestResultsPath>, x: TestResultsPath) {
    exists e :: e in s && CompareTo(e, x) == 0
  }

  /** `r` is what `TreeSet.add` leaves when `x` is added to `s`: `s` itself when it
      already holds an equal element, otherwise `s` with exactly `x` more; either way
      nothing is lost and `x` is held. */
  predicate IsAdded(s: seq<TestResultsPath>, x: TestResultsPath, r: seq<TestResultsPath>) {
    (Holds(s, x) ==> r == s) &&
    (!Holds(s, x) ==> multiset(r) == multiset(s) + multiset{x}) &&
    (forall y :: y in r ==> y in s || y == x) &&
    (forall y :: y in s ==> y in r) &&
    Holds(r, x)
  }

  /** `TreeSet.add`: inserts `x` in order, unless an equal element is already there. */
  function Add(s: TreeSet, x: TestResultsPath): (r: TreeSet)
    ensures IsAdded(s, x, r)
  {
    if s == [] then
      AddToEmpty(x);
      [x]
    else
      var c := CompareTo(x, s[0]);
      if c == 0 then
        EqualToFirst(x, s);
        s
      else if c < 0 then
        SmallerThanFirst(x, s);
        [x] + s
      else
        var rest := Add(s[1..], x);
        GreaterThanFirst(x, s, rest);
        [s[0]] + rest
  }

  lemma AddToEmpty(x: TestResultsPath)
    ensures Ordered([x]) && IsAdded([], x, [x])
  {
    assert x in [x] && CompareTo(x, x) == 0;
  }

  /** An element equal to the first one is already held. */
  lemma EqualToFirst(x: TestResultsPath, s: TreeSet)
    requires s != [] && CompareTo(x, s[0]) == 0
    ensures IsAdded(s, x, s)
  {
    CompareToAntisymmetric(x, s[0]);
    assert s[0] in s && CompareTo(s[0], x) == 0;
  }

  /** An element that comes before the first one comes before all, and is new. */
  lemma SmallerThanFirst(x: TestResultsPath, s: TreeSet)
    requires s != [] && CompareTo(x, s[0]) < 0
    ensures Ordered([x] + s) && !Holds(s, x) && IsAdded(s, x, [x] + s)
  {
    BeforeAll(x, s);
    forall e | e in s ensures CompareTo(e, x) != 0 {
      var j :| 0 <= j < |s| && s[j] == e;
      CompareToAntisymmetric(x, e);
    }
    assert x in [x] + s && CompareTo(x, x) == 0;
    ConsOrdered(x, s);
  }

  /** An element that comes before the first one comes before every one. */
  lemma BeforeAll(x: TestResultsPath, s: TreeSet)
    requires s != [] && CompareTo(x, s[0]) < 0
    ensures forall y :: y in s ==> CompareTo(x, y) < 0
  {
    forall y | y in s ensures CompareTo(x, y) < 0 {
      var j :| 0 <= j < |s| && s[j] == y;
      if j > 0 {
        CompareTransitive(Render(x.path), Render(s[0].path), Render(s[j].path));
      }
    }
  }

  /** Inserting behind the first element: `rest` is the tail with `x` added. */
  lemma GreaterThanFirst(x: TestResultsPath, s: TreeSet, rest: TreeSet)
    requires s != [] && CompareTo(x, s[0]) > 0
    requires IsAdded(s[1..], x, rest)
    ensures Ordered([s[0]] + rest)
    ensures IsAdded(s, x, [s[0]] + rest)
  {
    assert s == [s[0]] + s[1..];
    HoldsInTail(x, s);
    BehindFirst(x, s, rest);
    ConsOrdered(s[0], rest);
    var e :| e in rest && CompareTo(e, x) == 0;
    assert e in [s[0]] + rest;
  }

  /** An element that comes after the first one is held by `s` iff it is held by its tail. */
  lemma HoldsInTail(x: TestResultsPath, s: seq<TestResultsPath>)
    requires s != [] && CompareTo(x, s[0]) > 0
    ensures Holds(s, x) <==> Holds(s[1..], x)
  {
    if Holds(s, x) {
      var e :| e in s && CompareTo(e, x) == 0;
      if e != s[0] {
        assert e in s[1..];
      }
    }
  }

  /** Every element of the tail, and `x`, come after the first element. */
  lemma BehindFirst(x: TestResultsPath, s: TreeSet, rest: seq<TestResultsPath>)
    requires s != [] && CompareTo(x, s[0]) > 0
    requires forall y :: y in rest ==> y in s[1..] || y == x
    ensures forall y :: y in rest ==> CompareTo(s[0], y) < 0
  {
    CompareToAntisymmetric(x, s[0]);
    forall y | y in rest ensures CompareTo(s[0], y) < 0 {
      if y != x {
        var j :| 0 <= j < |s[1..]| && s[1..][j] == y;
        assert s[j + 1] == y;
      }
    }
  }

  /** Putting in front an element that comes before all the others keeps the order. */
  lemma ConsOrdered(h: TestResultsPath, rest: TreeSet)
    requires forall y :: y in rest ==> CompareTo(h, y) < 0
    ensures Ordered([h] + rest)
  {
    var r := [h] + rest;
    forall i, j | 0 <= i < j < |r| ensures CompareTo(r[i], r[j]) < 0 {
      if i == 0 {
        assert r[j] in rest;
      } else {
        assert r[i] == rest[i - 1] && r[j] == rest[j - 1];
      }
    }
  }

  // ---------------------------------------------------------------------------
  // Extraction
  // ---------------------------------------------------------------------------

  /** A decoded archive entry: the segments of its name, whether that name is
      absolute, whether it is a directory, and its contents. */
  datatype ZipEntry = ZipEntry(absolute: bool, name: Path, isDirectory: bool, bytes: seq<byte>)

  /** What one extraction yields: the build report, if any, and the test-results directories. */
  datatype BuildReports = BuildReports(buildReportPath: Option<Path>, testResultsPaths: TreeSet)

  /** The exceptions `unzip` raises. */
  datatype UnzipError =
    | OutsideTargetDir(entryName: Path)   // rejected by the zip-slip guard
    | CannotCreateDirectory(dir: Path)    // `mkdirs` failed
    | CannotOpenFile(file: Path)          // `new FileOutputStream` on a directory
    | NoParentDirectory                   // `getParentFile()` of the root is `null`

  /** The outcome of extracting entries: the disk afterwards and what `unzip` returns or raises. */
  datatype Extraction = Extraction(disk: Disk, result: Result<BuildReports, UnzipError>)

  /** `destinationDirectory.resolve(name)`: an absolute name replaces the destination.
      Nothing is normalised: ".." segments stay as they are. */
  function Resolve(dest: Path, e: ZipEntry): Path {
    if e.absolute then e.name else dest + e.name
  }

  /** `getZipEntryPath`: the entry's path, or an error when it does not start with
      the destination directory. */
  function GetZipEntryPath(dest: Path, e: ZipEntry): (r: Result<Path, UnzipError>)
    ensures r.Ok? ==> r.value == Resolve(dest, e) && StartsWith(r.value, dest)
    ensures r.Err? ==> r.error == OutsideTargetDir(e.name)
    ensures !e.absolute ==> r.Ok?
    ensures e.absolute ==> (r.Ok? <==> StartsWith(e.name, dest))
  {
    var destinationFile := Resolve(dest, e);
    if !StartsWith(destinationFile, dest) then Err(OutsideTargetDir(e.name))
    else Ok(destinationFile)
  }

  /** The guard is a prefix test on segments: `../../evil.txt` passes it. */
  lemma ParentSegmentsPassGuard(dest: Path, bytes: seq<byte>)
    ensures GetZipEntryPath(dest, ZipEntry(false, ["..", "..", "evil.txt"], false, bytes)) ==
            Ok(dest + ["..", "..", "evil.txt"])
  {
  }

  /** The test-results directory `p` is, if any. */
  function TrackAs(p: Path): Option<TestResultsPath> {
    if EndsWith(p, MAVEN_SUREFIRE_REPORTS_PATH) then Some(Surefire(p))
    else if EndsWith(p, MAVEN_FAILSAFE_REPORTS_PATH) then Some(Failsafe(p))
    else if EndsWith(p, GRADLE_REPORTS_PATH) then Some(Gradle(p))
    else None
  }

  /** A tracked path is tracked as itself. */
  lemma TrackAsKeepsPath(p: Path)
    ensures TrackAs(p).Some? ==> TrackAs(p).value.path == p
  {
  }

  /** A path that ends with `suffix` ends with its last segment. */
  lemma EndsWithLastSegment(p: Path, suffix: Path)
    requires suffix != [] && EndsWith(p, suffix)
    ensures p != [] && p[|p| - 1] == suffix[|suffix| - 1]
  {
    assert p[|p| - |suffix|..][|suffix| - 1] == p[|p| - 1];
  }

  /** Only a report directory itself is tracked: a tracked path ends with the
      directory's own name. */
  lemma TrackedPathsEndInReportDirectory(p: Path)
    requires TrackAs(p).Some?
    ensures p != [] && (p[|p| - 1] == "surefire-reports" || p[|p| - 1] == "failsafe-reports" ||
                        p[|p| - 1] == "test")
  {
    if EndsWith(p, MAVEN_SUREFIRE_REPORTS_PATH) {
      EndsWithLastSegment(p, MAVEN_SUREFIRE_REPORTS_PATH);
    } else if EndsWith(p, MAVEN_FAILSAFE_REPORTS_PATH) {
      EndsWithLastSegment(p, MAVEN_FAILSAFE_REPORTS_PATH);
    } else {
      EndsWithLastSegment(p, GRADLE_REPORTS_PATH);
    }
  }

  /** Nothing inside a report directory is tracked: a path whose last segment
      names no report directory, such as a report file, is not tracked. */
  lemma ReportFileIsNotTracked(p: Path, name: string)
    requires name != "surefire-reports" && name != "failsafe-reports" && name != "test"
    ensures TrackAs(p + [name]).None?
  {
    var q := p + [name];
    assert q[|q| - 1] == name;
    if TrackAs(q).Some? {
      TrackedPathsEndInReportDirectory(q);
    }
  }

  /** The if/else-if chain of `unzip`: a path is the build report, or at most one
      kind of test-results directory, or neither. */
  function Classify(reports: BuildReports, p: Path): (r: BuildReports)
    ensures r.buildReportPath == if EndsWith(p, BUILD_REPORT_PATH) then Some(p) else reports.buildReportPath
    ensures r.testResultsPaths == match TrackAs(p)
                                  case None => reports.testResultsPaths
                                  case Some(t) => Add(reports.testResultsPaths, t)
  {
    if EndsWith(p, BUILD_REPORT_PATH) then
      reports.(buildReportPath := Some(p))
    else if EndsWith(p, MAVEN_SUREFIRE_REPORTS_PATH) then
      reports.(testResultsPaths := Add(reports.testResultsPaths, Surefire(p)))
    else if EndsWith(p, MAVEN_FAILSAFE_REPORTS_PATH) then
      reports.(testResultsPaths := Add(reports.testResultsPaths, Failsafe(p)))
    else if EndsWith(p, GRADLE_REPORTS_PATH) then
      reports.(testResultsPaths := Add(reports.testResultsPaths, Gradle(p)))
    else
      reports
  }

  /** The directories extracting `e` may create: the lineage of a directory
      entry's path, or of a file entry's parent directory. */
  function Created(dest: Path, e: ZipEntry): set<Path> {
    var p := Resolve(dest, e);
    if e.isDirectory then Lineage(p)
    else if p == [] then {}
    else Lineage(p[..|p| - 1])
  }

  /** A directory entry at `p`: `mkdirs` unless it is already a directory. */
  function ExtractDirectory(d: Disk, p: Path, classified: BuildReports): (x: Extraction)
    ensures d.dirs <= x.disk.dirs <= d.dirs + Lineage(p)
    ensures x.result.Ok? ==> x.result.value == classified && IsDirectory(x.disk, p) && x.disk.files == d.files
    ensures x.result.Err? <==> !IsDirectory(d, p) && Mkdirs(d, p).None?
    ensures x.result.Err? ==> x == Extraction(d, Err(CannotCreateDirectory(p)))
  {
    if IsDirectory(d, p) then Extraction(d, Ok(classified))
    else
      match Mkdirs(d, p)
      case None => Extraction(d, Err(CannotCreateDirectory(p)))
      case Some(created) => Extraction(created, Ok(classified))
  }

  /** A file entry at `p`: its parent is created unless it is already a
      directory, then the file is written. */
  function ExtractFile(d: Disk, p: Path, bytes: seq<byte>, classified: BuildReports): (x: Extraction)
    ensures p == [] ==> x == Extraction(d, Err(NoParentDirectory))
    ensures p != [] ==> d.dirs <= x.disk.dirs <= d.dirs + Lineage(p[..|p| - 1])
    // a failure writes no file, and one on the parent changes nothing at all
    ensures x.result.Err? ==> x.disk.files == d.files
    ensures p != [] && x.result == Err(CannotCreateDirectory(p[..|p| - 1])) ==> x.disk == d
    ensures x.result.Ok? ==> x.result.value == classified && p != [] &&
                             IsDirectory(x.disk, p[..|p| - 1]) && x.disk.files == d.files[p := bytes]
    ensures p != [] ==>
              var parent := p[..|p| - 1];
              var parentFails := !IsDirectory(d, parent) && Mkdirs(d, parent).None?;
              (x.result == Err(CannotCreateDirectory(parent)) <==> parentFails) &&
              (x.result == Err(CannotOpenFile(p)) <==> !parentFails && IsDirectory(d, p)) &&
              (x.result.Err? ==> x.result == Err(CannotCreateDirectory(parent)) ||
                                 x.result == Err(CannotOpenFile(p)))
  {
    if p == [] then Extraction(d, Err(NoParentDirectory))
    else
      var parent := p[..|p| - 1];
      var withParent := if IsDirectory(d, parent) then Some(d) else Mkdirs(d, parent);
      match withParent
      case None => Extraction(d, Err(CannotCreateDirectory(parent)))
      case Some(d1) =>
        match WriteFile(d1, p, bytes)
        case None => Extraction(d1, Err(CannotOpenFile(p)))
        case Some(d2) => Extraction(d2, Ok(classified))
  }

  /** One iteration of the loop of `unzip`. */
  function ExtractEntry(d: Disk, reports: BuildReports, dest: Path, e: ZipEntry): (x: Extraction)
    // the guard runs before anything is created
    ensures GetZipEntryPath(dest, e).Err? ==> x == Extraction(d, Err(OutsideTargetDir(e.name)))
    // directories are never lost, and only the entry's own lineage is created
    ensures d.dirs <= x.disk.dirs <= d.dirs + Created(dest, e)
    // an entry that raises writes no file
    ensures x.result.Err? ==> x.disk.files == d.files
    ensures x.result.Ok? ==> GetZipEntryPath(dest, e).Ok? && x.result.value == Classify(reports, Resolve(dest, e))
    // a directory entry leaves that directory in place
    ensures x.result.Ok? && e.isDirectory ==>
              IsDirectory(x.disk, Resolve(dest, e)) && x.disk.files == d.files
    // a file entry leaves its parent directory in place and the file holding exactly its bytes
    ensures x.result.Ok? && !e.isDirectory ==>
              var p := Resolve(dest, e);
              p != [] && IsDirectory(x.disk, p[..|p| - 1]) && x.disk.files == d.files[p := e.bytes]
  {
    match GetZipEntryPath(dest, e)
    case Err(error) => Extraction(d, Err(error))
    case Ok(newPath) =>
      var classified := Classify(reports, newPath);
      if e.isDirectory then ExtractDirectory(d, newPath, classified)
      else ExtractFile(d, newPath, e.bytes, classified)
  }

  /** When an entry that passed the guard raises: a directory entry exactly when
      `mkdirs` fails, changing nothing; a file entry with no parent, or exactly
      when its parent cannot be created, or exactly when its path is a directory. */
  lemma EntryFailures(d: Disk, reports: BuildReports, dest: Path, e: ZipEntry)
    requires GetZipEntryPath(dest, e).Ok?
    ensures var x := ExtractEntry(d, reports, dest, e);
            var p := Resolve(dest, e);
            e.isDirectory ==>
              (x.result.Err? <==> !IsDirectory(d, p) && Mkdirs(d, p).None?) &&
              (x.result.Err? ==> x == Extraction(d, Err(CannotCreateDirectory(p))))
    ensures var x := ExtractEntry(d, reports, dest, e);
            var p := Resolve(dest, e);
            !e.isDirectory ==>
              (p == [] ==> x == Extraction(d, Err(NoParentDirectory))) &&
              (p != [] ==>
                 var parent := p[..|p| - 1];
                 var parentFails := !IsDirectory(d, parent) && Mkdirs(d, parent).None?;
                 (x.result == Err(CannotCreateDirectory(parent)) <==> parentFails) &&
                 (x.result == Err(CannotOpenFile(p)) <==> !parentFails && IsDirectory(d, p)) &&
                 (x.result.Err? ==> x.result == Err(CannotCreateDirectory(parent)) ||
                                    x.result == Err(CannotOpenFile(p))))
  {
    var classified := Classify(reports, Resolve(dest, e));
    if e.isDirectory {
      assert ExtractEntry(d, reports, dest, e) == ExtractDirectory(d, Resolve(dest, e), classified);
    } else {
      assert ExtractEntry(d, reports, dest, e) == ExtractFile(d, Resolve(dest, e), e.bytes, classified);
    }
  }

  /** A directory entry leaves a well-formed disk well formed. */
  lemma ExtractDirectoryKeepsWellFormed(d: Disk, p: Path, classified: BuildReports)
    requires WellFormed(d)
    ensures WellFormed(ExtractDirectory(d, p, classified).disk)
  {
    if !IsDirectory(d, p) && Mkdirs(d, p).Some? {
      MkdirsKeepsWellFormed(d, p);
    }
  }

  /** A file entry leaves a well-formed disk well formed. */
  lemma ExtractFileKeepsWellFormed(d: Disk, p: Path, bytes: seq<byte>, classified: BuildReports)
    requires WellFormed(d)
    ensures WellFormed(ExtractFile(d, p, bytes, classified).disk)
  {
    if p != [] {
      var parent := p[..|p| - 1];
      if !IsDirectory(d, parent) && Mkdirs(d, parent).Some? {
        MkdirsKeepsWellFormed(d, parent);
      }
      var withParent := if IsDirectory(d, parent) then Some(d) else Mkdirs(d, parent);
      if withParent.Some? && WriteFile(withParent.value, p, bytes).Some? {
        WriteFileKeepsWellFormed(withParent.value, p, bytes);
      }
    }
  }

  /** Extracting one entry, whether it succeeds or raises, leaves a well-formed disk well formed. */
  lemma ExtractEntryKeepsWellFormed(d: Disk, reports: BuildReports, dest: Path, e: ZipEntry)
    requires WellFormed(d)
    ensures WellFormed(ExtractEntry(d, reports, dest, e).disk)
  {
    if GetZipEntryPath(dest, e).Ok? {
      var p := Resolve(dest, e);
      var classified := Classify(reports, p);
      if e.isDirectory {
        assert ExtractEntry(d, reports, dest, e) == ExtractDirectory(d, p, classified);
        ExtractDirectoryKeepsWellFormed(d, p, classified);
      } else {
        assert ExtractEntry(d, reports, dest, e) == ExtractFile(d, p, e.bytes, classified);
        ExtractFileKeepsWellFormed(d, p, e.bytes, classified);
      }
    }
  }

  /** The loop of `unzip` over `entries`, from `reports` found so far; the first
      error ends it, leaving on disk whatever earlier entries created. */
  function ExtractAll(d: Disk, reports: BuildReports, dest: Path, entries: seq<ZipEntry>): Extraction
    decreases |entries|
  {
    if entries == [] then Extraction(d, Ok(reports))
    else
      var step := ExtractEntry(d, reports, dest, entries[0]);
      if step.result.Err? then step
      else ExtractAll(step.disk, step.result.value, dest, entries[1..])
  }

  /** The `unzip` loop leaves a well-formed disk well formed, whether it ends normally or raises. */
  lemma {:induction false} ExtractAllKeepsWellFormed(d: Disk, reports: BuildReports, dest: Path,
                                                     entries: seq<ZipEntry>)
    requires WellFormed(d)
    decreases |entries|
    ensures WellFormed(ExtractAll(d, reports, dest, entries).disk)
  {
    if entries != [] {
      var step := ExtractEntry(d, reports, dest, entries[0]);
      ExtractEntryKeepsWellFormed(d, reports, dest, entries[0]);
      if step.result.Ok? {
        ExtractAllKeepsWellFormed(step.disk, step.result.value, dest, entries[1..]);
      }
    }
  }

  /** `unzip` of an archive into `dest`, starting with no build report and an empty set. */
  function Unzipped(d: Disk, dest: Path, entries: seq<ZipEntry>): Extraction {
    ExtractAll(d, BuildReports(None, []), dest, entries)
  }

  /** Extracting `xs + ys` is extracting `xs`, then `ys` if `xs` raised nothing. */
  lemma {:induction false} ExtractAllAppend(d: Disk, reports: BuildReports, dest: Path,
                                            xs: seq<ZipEntry>, ys: seq<ZipEntry>)
    decreases |xs|
    ensures ExtractAll(d, reports, dest, xs + ys) ==
            var x := ExtractAll(d, reports, dest, xs);
            if x.result.Err? then x else ExtractAll(x.disk, x.result.value, dest, ys)
  {
    if xs == [] {
      assert xs + ys == ys;
    } else {
      assert (xs + ys)[0] == xs[0];
      assert (xs + ys)[1..] == xs[1..] + ys;
      var step := ExtractEntry(d, reports, dest, xs[0]);
      assert ExtractAll(d, reports, dest, xs + ys) ==
             if step.result.Err? then step else ExtractAll(step.disk, step.result.value, dest, xs[1..] + ys);
      assert ExtractAll(d, reports, dest, xs) ==
             if step.result.Err? then step else ExtractAll(step.disk, step.result.value, dest, xs[1..]);
      if step.result.Ok? {
        ExtractAllAppend(step.disk, step.result.value, dest, xs[1..], ys);
      }
    }
  }

  lemma SplitLast<T>(s: seq<T>)
    requires s != []
    ensures s == s[..|s| - 1] + [s[|s| - 1]]
  {
  }

  /** Extracting one more entry after `init`. */
  lemma ExtractLast(d: Disk, reports: BuildReports, dest: Path, init: seq<ZipEntry>, last: ZipEntry)
    ensures ExtractAll(d, reports, dest, init + [last]) ==
            var x := ExtractAll(d, reports, dest, init);
            if x.result.Err? then x else ExtractEntry(x.disk, x.result.value, dest, last)
  {
    ExtractAllAppend(d, reports, dest, init, [last]);
    var x := ExtractAll(d, reports, dest, init);
    if x.result.Ok? {
      assert [last][1..] == [];
    }
  }

  /** A rejected entry ends the extraction with the guard's error before it creates
      anything; what the entries before it created stays on disk. */
  lemma RejectedEntryStopsExtraction(d: Disk, reports: BuildReports, dest: Path,
                                     before: seq<ZipEntry>, e: ZipEntry, after: seq<ZipEntry>)
    requires GetZipEntryPath(dest, e).Err?
    requires ExtractAll(d, reports, dest, before).result.Ok?
    ensures ExtractAll(d, reports, dest, before + [e] + after) ==
            Extraction(ExtractAll(d, reports, dest, before).disk, Err(OutsideTargetDir(e.name)))
  {
    assert before + [e] + after == before + ([e] + after);
    ExtractAllAppend(d, reports, dest, before, [e] + after);
    assert ([e] + after)[0] == e;
  }

  /** What one pass does to the set of test-results paths: it keeps what was there,
      adds only entries' tracked paths, and holds (up to `compareTo`) each of them. */
  lemma {:induction false} TrackedPathsOfExtraction(d: Disk, reports: BuildReports, dest: Path,
                                                    entries: seq<ZipEntry>)
    requires ExtractAll(d, reports, dest, entries).result.Ok?
    decreases |entries|
    ensures forall e :: e in entries ==> GetZipEntryPath(dest, e).Ok?
    ensures var ts := ExtractAll(d, reports, dest, entries).result.value.testResultsPaths;
            (forall t :: t in reports.testResultsPaths ==> t in ts) &&
            (forall t :: t in ts ==> t in reports.testResultsPaths ||
                                     exists e :: e in entries && TrackAs(Resolve(dest, e)) == Some(t)) &&
            (forall e :: e in entries && TrackAs(Resolve(dest, e)).Some? ==>
                           Holds(ts, TrackAs(Resolve(dest, e)).value))
  {
    if entries != [] {
      var e0 := entries[0];
      var p0 := Resolve(dest, e0);
      var step := ExtractEntry(d, reports, dest, e0);
      var mid := step.result.value;
      ClassifyTracks(reports, p0);
      assert mid == Classify(reports, p0);
      TrackedPathsOfExtraction(step.disk, mid, dest, entries[1..]);
      var ts := ExtractAll(d, reports, dest, entries).result.value.testResultsPaths;
      assert ts == ExtractAll(step.disk, mid, dest, entries[1..]).result.value.testResultsPaths;
      assert forall e :: e in entries ==> e == e0 || e in entries[1..];
      forall t | t in ts
        ensures t in reports.testResultsPaths || exists e :: e in entries && TrackAs(Resolve(dest, e)) == Some(t)
      {
        if t in mid.testResultsPaths && t !in reports.testResultsPaths {
          assert TrackAs(p0) == Some(t);
        }
      }
      if TrackAs(p0).Some? {
        var w :| w in mid.testResultsPaths && CompareTo(w, TrackAs(p0).value) == 0;
        assert w in ts;
      }
    }
  }

  /** What classifying one path does to the tracked test-results paths. */
  lemma ClassifyTracks(reports: BuildReports, p: Path)
    ensures var ts := Classify(reports, p).testResultsPaths;
            (forall t :: t in reports.testResultsPaths ==> t in ts) &&
            (forall t :: t in ts ==> t in reports.testResultsPaths || TrackAs(p) == Some(t)) &&
            (TrackAs(p).Some? ==> Holds(ts, TrackAs(p).value))
  {
    match TrackAs(p)
    case None =>
    case Some(t) =>
      assert IsAdded(reports.testResultsPaths, t, Add(reports.testResultsPaths, t));
  }

  /** The test-results directories of an archive: each is an entry's tracked path
      inside the destination, every entry's tracked path is there (up to `compareTo`),
      and the set is ordered by path with no path twice. */
  lemma TestResultsOfArchive(d: Disk, dest: Path, entries: seq<ZipEntry>)
    requires Unzipped(d, dest, entries).result.Ok?
    ensures var ts := Unzipped(d, dest, entries).result.value.testResultsPaths;
            (forall t :: t in ts ==> StartsWith(t.path, dest) &&
                                     exists e :: e in entries && TrackAs(Resolve(dest, e)) == Some(t)) &&
            (forall e :: e in entries && TrackAs(Resolve(dest, e)).Some? ==>
                           Holds(ts, TrackAs(Resolve(dest, e)).value)) &&
            (forall i, j :: 0 <= i < j < |ts| ==> CompareTo(ts[i], ts[j]) < 0 && ts[i].path != ts[j].path)
  {
    var ts := Unzipped(d, dest, entries).result.value.testResultsPaths;
    TrackedPathsOfExtraction(d, BuildReports(None, []), dest, entries);
    forall t | t in ts
      ensures StartsWith(t.path, dest) && exists e :: e in entries && TrackAs(Resolve(dest, e)) == Some(t)
    {
      var e :| e in entries && TrackAs(Resolve(dest, e)) == Some(t);
      TrackAsKeepsPath(Resolve(dest, e));
      assert GetZipEntryPath(dest, e).Ok?;
    }
    forall i, j | 0 <= i < j < |ts| ensures CompareTo(ts[i], ts[j]) < 0 && ts[i].path != ts[j].path {
      assert CompareTo(ts[i], ts[j]) < 0;
    }
  }

  /** The path of the last entry that is a build report, if any. */
  function LastBuildReport(dest: Path, entries: seq<ZipEntry>): Option<Path> {
    if entries == [] then None
    else
      var p := Resolve(dest, entries[|entries| - 1]);
      if EndsWith(p, BUILD_REPORT_PATH) then Some(p) else LastBuildReport(dest, entries[..|entries| - 1])
  }

  /** The build report found is that of the last matching entry: later matches
      replace earlier ones, and without a match the previous value stays. */
  lemma {:induction false} BuildReportIsLastMatch(d: Disk, reports: BuildReports, dest: Path,
                                                  entries: seq<ZipEntry>)
    requires ExtractAll(d, reports, dest, entries).result.Ok?
    decreases |entries|
    ensures ExtractAll(d, reports, dest, entries).result.value.buildReportPath ==
            if LastBuildReport(dest, entries).Some? then LastBuildReport(dest, entries)
            else reports.buildReportPath
  {
    if entries != [] {
      var init, last := entries[..|entries| - 1], entries[|entries| - 1];
      SplitLast(entries);
      ExtractLast(d, reports, dest, init, last);
      BuildReportIsLastMatch(d, reports, dest, init);
    }
  }

  /** The contents the last file entry resolving to `p` writes, if any. */
  function LastWrite(dest: Path, entries: seq<ZipEntry>, p: Path): Option<seq<byte>> {
    if entries == [] then None
    else
      var e := entries[|entries| - 1];
      if !e.isDirectory && Resolve(dest, e) == p then Some(e.bytes)
      else LastWrite(dest, entries[..|entries| - 1], p)
  }

  /** The directories extracting `entries` may create. */
  function CreatedDirs(dest: Path, entries: seq<ZipEntry>): set<Path> {
    if entries == [] then {}
    else CreatedDirs(dest, entries[..|entries| - 1]) + Created(dest, entries[|entries| - 1])
  }

  /** A directory entry's directory exists; a file entry's parent directory exists. */
  predicate InPlace(disk: Disk, dest: Path, e: ZipEntry) {
    var p := Resolve(dest, e);
    if e.isDirectory then IsDirectory(disk, p) else p != [] && IsDirectory(disk, p[..|p| - 1])
  }

  /** The disk after a successful pass: no directory is lost, only the entries' own
      lineages are created, every directory entry and the parent of every file entry
      is a directory, and each file holds the bytes of the last entry written to it
      (or what it held before, when no entry wrote it). */
  lemma DiskAfterExtraction(d: Disk, reports: BuildReports, dest: Path, entries: seq<ZipEntry>)
    requires ExtractAll(d, reports, dest, entries).result.Ok?
    ensures var disk := ExtractAll(d, reports, dest, entries).disk;
            d.dirs <= disk.dirs <= d.dirs + CreatedDirs(dest, entries) &&
            (forall e :: e in entries ==> InPlace(disk, dest, e)) &&
            (forall p :: p in disk.files <==> p in d.files || LastWrite(dest, entries, p).Some?) &&
            (forall p :: p in disk.files ==>
                           disk.files[p] == if LastWrite(dest, entries, p).Some?
                                            then LastWrite(dest, entries, p).value else d.files[p])
  {
    DirectoriesAfterExtraction(d, reports, dest, entries);
    FilesAfterExtraction(d, reports, dest, entries);
  }

  /** After a successful pass no directory is lost, only the entries' own lineages are
      created, and every directory entry and the parent of every file entry is a directory. */
  lemma {:induction false} DirectoriesAfterExtraction(d: Disk, reports: BuildReports, dest: Path,
                                                      entries: seq<ZipEntry>)
    requires ExtractAll(d, reports, dest, entries).result.Ok?
    decreases |entries|
    ensures var disk := ExtractAll(d, reports, dest, entries).disk;
            d.dirs <= disk.dirs <= d.dirs + CreatedDirs(dest, entries) &&
            (forall e :: e in entries ==> InPlace(disk, dest, e))
  {
    if entries != [] {
      var init, last := entries[..|entries| - 1], entries[|entries| - 1];
      SplitLast(entries);
      ExtractLast(d, reports, dest, init, last);
      DirectoriesAfterExtraction(d, reports, dest, init);
      var x := ExtractAll(d, reports, dest, init);
      var y := ExtractEntry(x.disk, x.result.value, dest, last);
      assert ExtractAll(d, reports, dest, entries) == y;
      assert CreatedDirs(dest, entries) == CreatedDirs(dest, init) + Created(dest, last);
      assert InPlace(y.disk, dest, last);
      forall e | e in entries ensures InPlace(y.disk, dest, e) {
        if e != last {
          assert e in init;
          assert InPlace(x.disk, dest, e);
        }
      }
    }
  }

  /** After a successful pass each file holds the bytes of the last entry written to it,
      or what it held before. */
  lemma {:induction false} FilesAfterExtraction(d: Disk, reports: BuildReports, dest: Path,
                                                entries: seq<ZipEntry>)
    requires ExtractAll(d, reports, dest, entries).result.Ok?
    decreases |entries|
    ensures var disk := ExtractAll(d, reports, dest, entries).disk;
            (forall p :: p in disk.files <==> p in d.files || LastWrite(dest, entries, p).Some?) &&
            (forall p :: p in disk.files ==>
                           disk.files[p] == if LastWrite(dest, entries, p).Some?
                                            then LastWrite(dest, entries, p).value else d.files[p])
  {
    if entries != [] {
      var init, last := entries[..|entries| - 1], entries[|entries| - 1];
      SplitLast(entries);
      ExtractLast(d, reports, dest, init, last);
      FilesAfterExtraction(d, reports, dest, init);
      var x := ExtractAll(d, reports, dest, init);
      var y := ExtractEntry(x.disk, x.result.value, dest, last);
      assert ExtractAll(d, reports, dest, entries) == y;
    }
  }

  // ---------------------------------------------------------------------------
  // The extraction loop and the download condition
  // ---------------------------------------------------------------------------

  /** `unzip`: extracts the entries in order into `dest`, classifying each path. */
  method Unzip(fs: FileSystem, dest: Path, entries: seq<ZipEntry>) returns (r: Result<BuildReports, UnzipError>)
    modifies fs
    ensures Extraction(fs.State(), r) == Unzipped(old(fs.State()), dest, entries)
  {
    var reports := BuildReports(None, []);
    var i := 0;
    while i < |entries|
      invariant 0 <= i <= |entries|
      invariant ExtractAll(fs.State(), reports, dest, entries[i..]) == Unzipped(old(fs.State()), dest, entries)
    {
      assert entries[i..][0] == entries[i] && entries[i..][1..] == entries[i + 1..];
      var step := UnzipEntry(fs, reports, dest, entries[i]);
      if step.Err? {
        return step;
      }
      reports := step.value;
      i := i + 1;
    }
    r := Ok(reports);
  }

  /** Extracting a directory entry at `p`. */
  method UnzipDirectory(fs: FileSystem, p: Path, classified: BuildReports)
    returns (r: Result<BuildReports, UnzipError>)
    modifies fs
    ensures Extraction(fs.State(), r) == ExtractDirectory(old(fs.State()), p, classified)
  {
    var isDirectory := fs.IsDirectoryAt(p);
    if !isDirectory {
      var created := fs.MakeDirectories(p);
      if !created {
        return Err(CannotCreateDirectory(p));
      }
    }
    r := Ok(classified);
  }

  /** Extracting a file entry at `p`. */
  method UnzipFile(fs: FileSystem, p: Path, bytes: seq<byte>, classified: BuildReports)
    returns (r: Result<BuildReports, UnzipError>)
    modifies fs
    ensures Extraction(fs.State(), r) == ExtractFile(old(fs.State()), p, bytes, classified)
  {
    if p == [] {
      return Err(NoParentDirectory);
    }
    var parent := p[..|p| - 1];
    var parentIsDirectory := fs.IsDirectoryAt(parent);
    if !parentIsDirectory {
      var created := fs.MakeDirectories(parent);
      if !created {
        return Err(CannotCreateDirectory(parent));
      }
    }
    var written := fs.Write(p, bytes);
    if !written {
      return Err(CannotOpenFile(p));
    }
    r := Ok(classified);
  }

  /** The body of the loop of `unzip` for one entry. */
  method UnzipEntry(fs: FileSystem, reports: BuildReports, dest: Path, e: ZipEntry)
    returns (r: Result<BuildReports, UnzipError>)
    modifies fs
    ensures Extraction(fs.State(), r) == ExtractEntry(old(fs.State()), reports, dest, e)
  {
    var guarded := GetZipEntryPath(dest, e);
    if guarded.Err? {
      return Err(guarded.error);
    }
    var newPath := guarded.value;
    var classified := Classify(reports, newPath);
    if e.isDirectory {
      r := UnzipDirectory(fs, newPath, classified);
    } else {
      r := UnzipFile(fs, newPath, e.bytes, classified);
    }
  }

  /** What one download attempt yields: an exception (the artifact is not
      available yet, the transfer failed) or the decoded archive. */
  datatype Download = Unavailable | Archive(entries: seq<ZipEntry>)

  /** The condition Awaitility polls: each `call()` downloads and extracts the
      artifact, and remembers the reports of the attempt that succeeds. */
  class ArtifactIsDownloaded {
    const jobDirectory: Path
    var buildReports: Option<BuildReports>
    var retry: int
    /** What each `call()` so far returned. */
    ghost var answers: seq<bool>

    ghost predicate Valid()
      reads this
    {
      retry == |answers| && (buildReports.Some? <==> true in answers)
    }

    constructor (jobDirectory: Path)
      ensures Valid() && this.jobDirectory == jobDirectory
      ensures buildReports == None && retry == 0 && answers == []
    {
      this.jobDirectory := jobDirectory;
      buildReports := None;
      retry := 0;
      answers := [];
    }

    /** `call()`: counts the attempt, then downloads and extracts; an exception
        makes it answer false and keep the reports it had. */
    method Call(download: Download, fs: FileSystem) returns (downloaded: bool)
      requires Valid()
      modifies this, fs
      ensures Valid()
      ensures retry == old(retry) + 1 && answers == old(answers) + [downloaded]
      ensures download.Unavailable? ==>
                !downloaded && fs.State() == old(fs.State()) && buildReports == old(buildReports)
      ensures download.Archive? ==>
                var x := Unzipped(old(fs.State()), jobDirectory, download.entries);
                fs.State() == x.disk && downloaded == x.result.Ok? &&
                buildReports == if downloaded then Some(x.result.value) else old(buildReports)
    {
      retry := retry + 1;
      match download {
        case Unavailable =>
          downloaded := false;
        case Archive(entries) =>
          var r := Unzip(fs, jobDirectory, entries);
          downloaded := r.Ok?;
          if downloaded {
            buildReports := Some(r.value);
          }
      }
      answers := answers + [downloaded];
    }

    /** `getBuildReports()`: empty exactly until some `call()` has succeeded. */
    method GetBuildReports() returns (reports: Option<BuildReports>)
      requires Valid()
      ensures reports == buildReports
      ensures reports.None? <==> true !in answers
    {
      reports := buildReports;
    }
  }

  /** Where polling stands: the disk, what the condition holds, and how many calls were made. */
  datatype Polling = Polling(disk: Disk, held: Option<BuildReports>, calls: nat)

  /** What a call does with a downloaded archive: extract it onto a disk. */
  type Extractor = (Disk, seq<ZipEntry>) -> Extraction

  /** The extraction `call()` performs: `unzip` into the job directory. */
  function UnzipInto(dest: Path): Extractor {
    (d: Disk, entries: seq<ZipEntry>) => Unzipped(d, dest, entries)
  }

  /** Calling a condition that extracts with `extract` on each attempt in turn,
      until one answers true. */
  function PollWith(extract: Extractor, d: Disk, attempts: seq<Download>): (p: Polling)
    decreases |attempts|
    ensures p.calls <= |attempts|
    ensures p.held.None? ==> p.calls == |attempts|
    ensures p.held.Some? ==> p.calls >= 1
  {
    if attempts == [] then Polling(d, None, 0)
    else match attempts[0]
      case Unavailable =>
        var rest := PollWith(extract, d, attempts[1..]);
        rest.(calls := rest.calls + 1)
      case Archive(entries) =>
        var x := extract(d, entries);
        if x.result.Ok? then Polling(x.disk, Some(x.result.value), 1)
        else
          var rest := PollWith(extract, x.disk, attempts[1..]);
          rest.(calls := rest.calls + 1)
  }

  /** Polling the condition of `getBuildReports` over the attempts. */
  function Poll(d: Disk, dest: Path, attempts: seq<Download>): Polling {
    PollWith(UnzipInto(dest), d, attempts)
  }

  /** One call of the condition, as `PollWith` takes it. */
  lemma PollStep(extract: Extractor, d: Disk, attempts: seq<Download>)
    requires attempts != []
    ensures attempts[0].Unavailable? ==>
              var rest := PollWith(extract, d, attempts[1..]);
              PollWith(extract, d, attempts) == rest.(calls := rest.calls + 1)
    ensures attempts[0].Archive? ==>
              var x := extract(d, attempts[0].entries);
              var rest := PollWith(extract, x.disk, attempts[1..]);
              PollWith(extract, d, attempts) ==
                if x.result.Ok? then Polling(x.disk, Some(x.result.value), 1)
                else rest.(calls := rest.calls + 1)
  {
  }

  /** Polling stops at the first successful attempt: the attempt at `calls - 1` is an
      archive whose extraction succeeds on the disk the earlier, failed attempts left,
      what is held is that extraction's result, and later attempts are never made. */
  lemma PollStopsAtFirstSuccess(d: Disk, dest: Path, attempts: seq<Download>, more: seq<Download>)
    requires Poll(d, dest, attempts).held.Some?
    ensures var p := Poll(d, dest, attempts);
            var k := p.calls - 1;
            var before := Poll(d, dest, attempts[..k]);
            0 <= k < |attempts| && attempts[k].Archive? && before.held.None? &&
            var x := Unzipped(before.disk, dest, attempts[k].entries);
            x.result.Ok? && p == Polling(x.disk, Some(x.result.value), k + 1) &&
            Poll(d, dest, attempts + more) == p
  {
    FirstSuccess(UnzipInto(dest), d, attempts);
    LaterAttemptsIgnored(UnzipInto(dest), d, attempts, more);
  }

  /** What polling holds comes from its last call, the first to succeed. */
  lemma {:induction false} FirstSuccess(extract: Extractor, d: Disk, attempts: seq<Download>)
    requires PollWith(extract, d, attempts).held.Some?
    decreases |attempts|
    ensures var p := PollWith(extract, d, attempts);
            var k := p.calls - 1;
            var before := PollWith(extract, d, attempts[..k]);
            0 <= k < |attempts| && attempts[k].Archive? && before.held.None? &&
            var x := extract(before.disk, attempts[k].entries);
            x.result.Ok? && p == Polling(x.disk, Some(x.result.value), k + 1)
  {
    var first := attempts[0];
    PollStep(extract, d, attempts);
    if first.Archive? && extract(d, first.entries).result.Ok? {
      assert attempts[..0] == [];
    } else {
      var after := if first.Unavailable? then d else extract(d, first.entries).disk;
      var rest := PollWith(extract, after, attempts[1..]);
      FirstSuccess(extract, after, attempts[1..]);
      var k := rest.calls;
      var init := attempts[..k];
      assert init != [] && init[0] == first && init[1..] == attempts[1..][..k - 1];
      assert attempts[k] == attempts[1..][k - 1];
      PollStep(extract, d, init);
    }
  }

  /** Attempts after a successful one are never made. */
  lemma LaterAttemptsIgnored(extract: Extractor, d: Disk, attempts: seq<Download>, more: seq<Download>)
    requires PollWith(extract, d, attempts).held.Some?
    ensures PollWith(extract, d, attempts + more) == PollWith(extract, d, attempts)
  {
    FirstSuccess(extract, d, attempts);
    var k := PollWith(extract, d, attempts).calls - 1;
    var tail := attempts[k..] + more;
    assert attempts + more == attempts[..k] + tail;
    PollAfterFailures(extract, d, attempts[..k], tail);
    assert tail[0] == attempts[k];
    PollStep(extract, PollWith(extract, d, attempts[..k]).disk, tail);
  }

  /** When no attempt succeeds, polling goes on with the later attempts from the
      disk the failed ones left, counting the failed calls. */
  lemma {:induction false} PollAfterFailures(extract: Extractor, d: Disk, attempts: seq<Download>,
                                             more: seq<Download>)
    requires PollWith(extract, d, attempts).held.None?
    decreases |attempts|
    ensures var p := PollWith(extract, d, attempts);
            var q := PollWith(extract, p.disk, more);
            p.calls == |attempts| && PollWith(extract, d, attempts + more) == q.(calls := q.calls + |attempts|)
  {
    if attempts == [] {
      assert attempts + more == more;
    } else {
      var first := attempts[0];
      assert (attempts + more)[0] == first && (attempts + more)[1..] == attempts[1..] + more;
      PollStep(extract, d, attempts);
      PollStep(extract, d, attempts + more);
      var after := if first.Unavailable? then d else extract(d, first.entries).disk;
      PollAfterFailures(extract, after, attempts[1..], more);
    }
  }

  /** The disk left by `attempts` when none of them succeeds, each extraction
      starting from the disk the previous one left; `None` when one succeeds. */
  function FailedAttempts(extract: Extractor, d: Disk, attempts: seq<Download>): Option<Disk>
    decreases |attempts|
  {
    if attempts == [] then Some(d)
    else match attempts[0]
      case Unavailable => FailedAttempts(extract, d, attempts[1..])
      case Archive(entries) =>
        var x := extract(d, entries);
        if x.result.Ok? then None else FailedAttempts(extract, x.disk, attempts[1..])
  }

  /** Polling holds nothing exactly when every attempt fails; it then leaves the
      disk the failed extractions left, one after another, after one call per attempt. */
  lemma {:induction false} NoSuccessfulAttempt(extract: Extractor, d: Disk, attempts: seq<Download>)
    decreases |attempts|
    ensures var p := PollWith(extract, d, attempts);
            var failed := FailedAttempts(extract, d, attempts);
            (p.held.None? <==> failed.Some?) &&
            (failed.Some? ==> p == Polling(failed.value, None, |attempts|))
  {
    if attempts != [] {
      PollStep(extract, d, attempts);
      var first := attempts[0];
      if first.Unavailable? {
        NoSuccessfulAttempt(extract, d, attempts[1..]);
      } else if !extract(d, first.entries).result.Ok? {
        NoSuccessfulAttempt(extract, extract(d, first.entries).disk, attempts[1..]);
      }
    }
  }

  /** Attempts on which the artifact is unavailable change nothing but the call count. */
  lemma {:induction false} UnavailableAttemptsOnlyCount(extract: Extractor, d: Disk, n: nat,
                                                        rest: seq<Download>)
    ensures var p := PollWith(extract, d, rest);
            PollWith(extract, d, seq(n, _ => Unavailable) + rest) == p.(calls := p.calls + n)
  {
    var attempts := seq(n, _ => Unavailable) + rest;
    if n == 0 {
      assert attempts == rest;
    } else {
      assert attempts[0] == Unavailable;
      assert attempts[1..] == seq(n - 1, _ => Unavailable) + rest;
      UnavailableAttemptsOnlyCount(extract, d, n - 1, rest);
    }
  }

  /** An archive that answers after `n` unavailable attempts is extracted on
      that attempt, after `n + 1` calls, whatever comes later. */
  lemma SuccessAfterUnavailable(extract: Extractor, d: Disk, n: nat, entries: seq<ZipEntry>,
                                later: seq<Download>)
    requires extract(d, entries).result.Ok?
    ensures var x := extract(d, entries);
            PollWith(extract, d, seq(n, _ => Unavailable) + ([Archive(entries)] + later)) ==
            Polling(x.disk, Some(x.result.value), n + 1)
  {
    var third := [Archive(entries)] + later;
    UnavailableAttemptsOnlyCount(extract, d, n, third);
    PollStep(extract, d, third);
  }

  /** An artifact that only becomes downloadable on the third attempt is
      extracted on that attempt, after three calls. */
  lemma ThirdAttemptSucceeds(d: Disk, dest: Path, entries: seq<ZipEntry>, later: seq<Download>)
    requires Unzipped(d, dest, entries).result.Ok?
    ensures Poll(d, dest, [Unavailable, Unavailable, Archive(entries)] + later) ==
            Polling(Unzipped(d, dest, entries).disk, Some(Unzipped(d, dest, entries).result.value), 3)
  {
    assert [Unavailable, Unavailable, Archive(entries)] + later ==
           seq(2, _ => Unavailable) + ([Archive(entries)] + later);
    SuccessAfterUnavailable(UnzipInto(dest), d, 2, entries, later);
  }

  /** When every attempt fails, the condition ends with no reports after one call per attempt. */
  lemma AllAttemptsFail(d: Disk, dest: Path, n: nat)
    ensures Poll(d, dest, seq(n, _ => Unavailable)) == Polling(d, None, n)
  {
    var none: seq<Download> := [];
    assert seq(n, _ => Unavailable) + none == seq(n, _ => Unavailable);
    UnavailableAttemptsOnlyCount(UnzipInto(dest), d, n, none);
  }

  /** `getBuildReports(pullRequest, artifact, jobDirectory)`: polls a fresh
      condition over the given attempts, stopping at the first that succeeds,
      and returns what the condition then holds. */
  method GetBuildReports(fs: FileSystem, jobDirectory: Path, attempts: seq<Download>)
    returns (reports: Option<BuildReports>, retries: nat)
    modifies fs
    ensures Polling(fs.State(), reports, retries) == Poll(old(fs.State()), jobDirectory, attempts)
  {
    var condition := new ArtifactIsDownloaded(jobDirectory);
    var i := 0;
    var downloaded := false;
    while i < |attempts| && !downloaded
      invariant 0 <= i <= |attempts|
      invariant condition.Valid() && condition.jobDirectory == jobDirectory
      invariant condition.retry == i
      invariant downloaded <==> condition.buildReports.Some?
      invariant !downloaded ==>
                  var rest := Poll(fs.State(), jobDirectory, attempts[i..]);
                  Poll(old(fs.State()), jobDirectory, attempts) == rest.(calls := rest.calls + i)
      invariant downloaded ==>
                  Poll(old(fs.State()), jobDirectory, attempts) ==
                  Polling(fs.State(), condition.buildReports, i)
      decreases |attempts| - i
    {
      assert attempts[i..][0] == attempts[i] && attempts[i..][1..] == attempts[i + 1..];
      PollStep(UnzipInto(jobDirectory), fs.State(), attempts[i..]);
      downloaded := condition.Call(attempts[i], fs);
      i := i + 1;
    }
    reports := condition.GetBuildReports();
    retries := condition.retry;
  }
}
