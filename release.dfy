/** The version rule of the release script: the bump type from the command
    line, the `major.minor.patch` split of the package version, the bumped
    version, and the tag and commit message formed from it. Reading and
    writing the two manifests and running git are not modelled; the plan
    records what they are given. */
module Release {
  import opened JsText

  /** `args[0] || 'patch'`: a missing or empty argument means "patch". */
  function VersionType(args: seq<string>): (r: string)
    ensures r != ""
    ensures args != [] && args[0] != "" ==> r == args[0]
    ensures args == [] || args[0] == "" ==> r == "patch"
  {
    if args == [] || args[0] == "" then "patch" else args[0]
  }

  /** A destructured component: a number, NaN, or `undefined` when the
      version has fewer than three parts. */
  datatype Part = Num(n: int) | NaN | Undefined

  /** The `i`-th part of the split version, read with `Number`. */
  function Component(parts: seq<string>, i: nat): (r: Part)
    ensures r.Undefined? <==> i >= |parts|
  {
    if i < |parts| then
      match Number(parts[i])
      case None => NaN
      case Some(n) => Num(n)
    else Undefined
  }

  /** `version.split('.').map(Number)`, first three components. */
  function Parse(version: string): (r: (Part, Part, Part))
    ensures !r.0.Undefined?
    ensures '.' !in version ==> r.1.Undefined? && r.2.Undefined?
    ensures r.1.Undefined? ==> r.2.Undefined?
  {
    var parts := Split(version, '.');
    (Component(parts, 0), Component(parts, 1), Component(parts, 2))
  }

  /** `p + 1`: NaN and `undefined` both give NaN. */
  function Succ(p: Part): (r: Part)
    ensures r.Num? <==> p.Num?
    ensures r.Num? ==> r.n == p.n + 1
  {
    match p
    case Num(n) => Num(n + 1)
    case _ => NaN
  }

  /** A component as a template literal prints it. */
  function Show(p: Part): (s: string)
    ensures '.' !in s
  {
    match p
    case Num(n) => IntToString(n)
    case NaN => "NaN"
    case Undefined => "undefined"
  }

  /** Three parts joined by dots, as the template literals write them. */
  function Dotted(x: string, y: string, z: string): string
  {
    x + "." + y + "." + z
  }

  /** The `switch` on the bump type: "major" and "minor" reset the lower
      components; "patch" and every other type bump the patch. Whatever the
      current version, the new one has exactly three dot-separated parts. */
  function NewVersion(versionType: string, v: (Part, Part, Part)): (r: string)
    ensures |Split(r, '.')| == 3
  {
    var x := if versionType == "major" then Show(Succ(v.0)) else Show(v.0);
    var y := if versionType == "major" then "0" else if versionType == "minor" then Show(Succ(v.1)) else Show(v.1);
    var z := if versionType == "major" || versionType == "minor" then "0" else Show(Succ(v.2));
    SplitThree(x, y, z);
    Dotted(x, y, z)
  }

  /** The dotted form of a numeric triple. */
  function Format(a: int, b: int, c: int): string
  {
    Dotted(IntToString(a), IntToString(b), IntToString(c))
  }

  /** The bump on numbers, an independent statement of the rule. */
  function Bumped(versionType: string, a: int, b: int, c: int): (r: (int, int, int))
    ensures Greater(r, (a, b, c))
  {
    if versionType == "major" then (a + 1, 0, 0)
    else if versionType == "minor" then (a, b + 1, 0)
    else (a, b, c + 1)
  }

  /** Lexicographic (major, minor, patch) order. */
  predicate Greater(x: (int, int, int), y: (int, int, int)) {
    x.0 > y.0 || (x.0 == y.0 && (x.1 > y.1 || (x.1 == y.1 && x.2 > y.2)))
  }

  /** A part written by `toString` reads back as its number. */
  lemma ComponentOfInt(parts: seq<string>, i: nat, n: int)
    requires i < |parts| && parts[i] == IntToString(n)
    ensures Component(parts, i) == Num(n)
  {
    NumberOfIntToString(n);
  }

  /** Two or three dot-free parts joined by dots split back into themselves. */
  lemma SplitTwo(x: string, y: string)
    requires '.' !in x && '.' !in y
    ensures Split(x + "." + y, '.') == [x, y]
  {
    SplitCons(x, '.', y);
  }

  lemma SplitThree(x: string, y: string, z: string)
    requires '.' !in x && '.' !in y && '.' !in z
    ensures Split(Dotted(x, y, z), '.') == [x, y, z]
  {
    assert x + "." + y + "." + z == x + ['.'] + (y + "." + z);
    SplitCons(x, '.', y + "." + z);
    SplitTwo(y, z);
  }

  /** A well-formed version reads back as its three numbers. */
  lemma ParseFormat(a: int, b: int, c: int)
    ensures Parse(Format(a, b, c)) == (Num(a), Num(b), Num(c))
  {
    var parts := Split(Format(a, b, c), '.');
    SplitThree(IntToString(a), IntToString(b), IntToString(c));
    ComponentOfInt(parts, 0, a);
    ComponentOfInt(parts, 1, b);
    ComponentOfInt(parts, 2, c);
  }

  /** On three numbers the script's bump is the numeric bump. */
  lemma NewVersionOfNumbers(versionType: string, a: int, b: int, c: int)
    ensures var r := Bumped(versionType, a, b, c);
            NewVersion(versionType, (Num(a), Num(b), Num(c))) == Format(r.0, r.1, r.2)
  {
    var r := Bumped(versionType, a, b, c);
    assert IntToString(0) == "0";
    if versionType == "major" {
      assert r == (a + 1, 0, 0);
    } else if versionType == "minor" {
      assert r == (a, b + 1, 0);
    } else {
      assert r == (a, b, c + 1);
    }
  }

  /** On a well-formed version the script's bump is the numeric bump. */
  lemma NewVersionFormat(versionType: string, a: int, b: int, c: int)
    ensures var r := Bumped(versionType, a, b, c);
            NewVersion(versionType, Parse(Format(a, b, c))) == Format(r.0, r.1, r.2)
  {
    ParseFormat(a, b, c);
    NewVersionOfNumbers(versionType, a, b, c);
  }

  /** Bumping a well-formed version yields a well-formed version that is
      strictly greater and reads back as the bumped triple. */
  lemma BumpRoundTrip(versionType: string, a: int, b: int, c: int)
    ensures var r := Bumped(versionType, a, b, c);
            Parse(NewVersion(versionType, Parse(Format(a, b, c)))) == (Num(r.0), Num(r.1), Num(r.2)) &&
            Greater(r, (a, b, c))
  {
    var r := Bumped(versionType, a, b, c);
    NewVersionFormat(versionType, a, b, c);
    ParseFormat(r.0, r.1, r.2);
  }

  /** A version with only two parts is patched into "M.m.NaN": the missing
      patch is `undefined` and `undefined + 1` is NaN. */
  lemma TwoPartVersion(a: int, b: int)
    ensures NewVersion("patch", Parse(IntToString(a) + "." + IntToString(b))) ==
            Dotted(IntToString(a), IntToString(b), "NaN")
  {
    var x, y := IntToString(a), IntToString(b);
    var parts := Split(x + "." + y, '.');
    SplitTwo(x, y);
    ComponentOfInt(parts, 0, a);
    ComponentOfInt(parts, 1, b);
    assert Parse(x + "." + y) == (Num(a), Num(b), Undefined);
  }

  /** What the script writes and runs: the same new version for both
      manifests, the commit message and the tag. */
  datatype Plan = Plan(packageVersion: string, manifestVersion: string, commitMessage: string, tag: string)

  function ReleasePlan(args: seq<string>, currentVersion: string): (r: Plan)
    ensures r.manifestVersion == r.packageVersion
    ensures r.tag == "v" + r.packageVersion
    ensures r.commitMessage == "chore: bump version to v" + r.packageVersion
    ensures |Split(r.packageVersion, '.')| == 3
  {
    var version := NewVersion(VersionType(args), Parse(currentVersion));
    Plan(version, version, "chore: bump version to v" + version, "v" + version)
  }

  /** Releasing from a well-formed version: both manifests get the bumped
      version, the tag is "v" and that version, and with no argument the
      patch is bumped. */
  lemma ReleaseFromFormat(args: seq<string>, a: int, b: int, c: int)
    ensures var r := Bumped(VersionType(args), a, b, c);
            var plan := ReleasePlan(args, Format(a, b, c));
            plan.packageVersion == plan.manifestVersion == Format(r.0, r.1, r.2) &&
            plan.tag == "v" + Format(r.0, r.1, r.2) &&
            plan.commitMessage == "chore: bump version to v" + Format(r.0, r.1, r.2)
    ensures args == [] ==> ReleasePlan(args, Format(a, b, c)).tag == "v" + Format(a, b, c + 1)
  {
    var versionType := VersionType(args);
    var r := Bumped(versionType, a, b, c);
    NewVersionFormat(versionType, a, b, c);
    var v := NewVersion(versionType, Parse(Format(a, b, c)));
    assert v == Format(r.0, r.1, r.2);
    assert ReleasePlan(args, Format(a, b, c)) == Plan(v, v, "chore: bump version to v" + v, "v" + v);
    if args == [] {
      assert versionType == "patch";
      assert r == (a, b, c + 1);
    }
  }
}
