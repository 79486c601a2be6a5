/** The string helpers the POST handler uses to name the files it writes:
    `createVersionString`, `formatFileName`, `formatAddress`, the search for
    the first unused version. */
module Naming {
  import Decimal

  /** The suffix that tells apart several uploads of the same session:
      nothing for version 0 (or below), "(n)" for version n > 0. */
  function CreateVersionString(version: int): (r: string)
    ensures r == "" <==> version <= 0
    ensures version > 0 ==>
      && |r| >= 3
      && r[0] == '(' && r[|r| - 1] == ')'
      && r[1] != '0'
      && Decimal.AllDigits(r[1..|r| - 1])
      && Decimal.ParseNat(r[1..|r| - 1]) == version
  {
    if version <= 0 then ""
    else
      var digits := Decimal.Itoa(version);
      Decimal.ParseItoa(version);
      assert ("(" + digits + ")")[1..|digits| + 1] == digits;
      "(" + digits + ")"
  }

  /** Two non-negative versions share a suffix only when they are equal. */
  lemma VersionStringInjective(v1: nat, v2: nat)
    ensures CreateVersionString(v1) == CreateVersionString(v2) <==> v1 == v2
  {
  }

  /** The data folder, whose separator depends on the operating system
      (`runtime.GOOS == "windows"` in the program). */
  function DataFolder(windows: bool): (f: string)
    ensures |f| == 6
  {
    if windows then "\\data\\" else "/data/"
  }

  /** The path of one upload: the working directory, the data folder, then
      `_experiment_date_session` and the csv file name. */
  function FormatFileName(date: string, dir: string, experimentName: string,
                          sessionNumber: int, csvName: string, windows: bool): (r: string)
    ensures |r| == |dir| + 6 + 1 + |experimentName| + 1 + |date| + 1
                   + |Decimal.Itoa(sessionNumber)| + |csvName|
    ensures r[..|dir|] == dir
    ensures r[|dir|..|dir| + 6] == DataFolder(windows)
    ensures r[|r| - |csvName|..] == csvName
  {
    var stem := dir + DataFolder(windows) + "_" + experimentName + "_" + date + "_"
                + Decimal.Itoa(sessionNumber);
    assert (stem + csvName)[..|dir|] == dir;
    assert (stem + csvName)[|dir|..|dir| + 6] == DataFolder(windows);
    stem + csvName
  }

  /** Where each part sits in the path: the directory, the data folder,
      `_`, the experiment name, `_`, the date, `_`, the session number in
      decimal, and the csv name, in that order and nothing in between. */
  lemma FileNameLayout(date: string, dir: string, experimentName: string,
                       sessionNumber: int, csvName: string, windows: bool)
    ensures var r := FormatFileName(date, dir, experimentName, sessionNumber, csvName, windows);
      var o := |dir| + 6;
      var e := o + 1 + |experimentName|;
      var d := e + 1 + |date|;
      && r[..|dir|] == dir
      && r[|dir|..o] == DataFolder(windows)
      && r[o] == '_'
      && r[o + 1..e] == experimentName
      && r[e] == '_'
      && r[e + 1..d] == date
      && r[d] == '_'
      && r[d + 1..|r| - |csvName|] == Decimal.Itoa(sessionNumber)
      && r[|r| - |csvName|..] == csvName
  {
  }

  /** With every other part fixed, the file name determines the csv name. */
  lemma FileNameInjective(date: string, dir: string, experimentName: string,
                          sessionNumber: int, windows: bool, csv1: string, csv2: string)
    ensures FormatFileName(date, dir, experimentName, sessionNumber, csv1, windows)
            == FormatFileName(date, dir, experimentName, sessionNumber, csv2, windows)
            <==> csv1 == csv2
  {
  }

  /** Everything in a probed file name except the version. */
  datatype NameParts = NameParts(date: string, dir: string, experimentName: string,
                                 sessionNumber: int, windows: bool)

  /** The sensor file name the POST handler probes for a given version. */
  function VersionedName(p: NameParts, version: int): string
  {
    FormatFileName(p.date, p.dir, p.experimentName, p.sessionNumber,
                   CreateVersionString(version) + "_sensor.csv", p.windows)
  }

  /** Different non-negative versions probe different files. */
  lemma VersionedNameInjective(p: NameParts, v1: nat, v2: nat)
    requires VersionedName(p, v1) == VersionedName(p, v2)
    ensures v1 == v2
  {
    var s1 := CreateVersionString(v1);
    var s2 := CreateVersionString(v2);
    FileNameInjective(p.date, p.dir, p.experimentName, p.sessionNumber, p.windows,
                      s1 + "_sensor.csv", s2 + "_sensor.csv");
    assert s1 == (s1 + "_sensor.csv")[..|s1|];
    assert s2 == (s2 + "_sensor.csv")[..|s2|];
    VersionStringInjective(v1, v2);
  }

  /** The names `name` gives to versions 0 .. k-1. */
  ghost function Probed(name: nat -> string, k: nat): set<string>
    decreases k
  {
    if k == 0 then {} else Probed(name, k - 1) + {name(k - 1)}
  }

  lemma {:induction false} ProbedContains(name: nat -> string, k: nat, v: nat)
    requires v < k
    ensures name(v) in Probed(name, k)
    decreases k
  {
    if v < k - 1 {
      ProbedContains(name, k - 1, v);
    }
  }

  /** When `name` is injective, k versions give k distinct names. */
  lemma {:induction false} ProbedSize(name: nat -> string, k: nat)
    requires forall i: nat, j: nat :: name(i) == name(j) ==> i == j
    ensures |Probed(name, k)| == k
    decreases k
  {
    if k > 0 {
      ProbedSize(name, k - 1);
      if name(k - 1) in Probed(name, k - 1) {
        ProbedBelow(name, k - 1, name(k - 1));
      }
    }
  }

  lemma {:induction false} ProbedBelow(name: nat -> string, k: nat, n: string)
    requires n in Probed(name, k)
    ensures exists v: nat :: v < k && name(v) == n
    decreases k
  {
    if n != name(k - 1) {
      ProbedBelow(name, k - 1, n);
    }
  }

  lemma SubsetCardinality<T>(a: set<T>, b: set<T>)
    requires a <= b
    ensures |a| <= |b|
  {
    assert b == a + (b - a);
  }

  /** The version search of the POST handler: starting from 0, move to the
      next version while a file of that name already exists. `existing` is
      the finite set of names for which the file-system probe succeeds.
      The result is the least version whose file is absent. */
  method FindVersion(existing: set<string>, p: NameParts) returns (version: nat)
    ensures VersionedName(p, version) !in existing
    ensures forall v :: 0 <= v < version ==> VersionedName(p, v) in existing
    ensures version <= |existing|
  {
    ghost var name: nat -> string := v => VersionedName(p, v);
    forall i: nat, j: nat | name(i) == name(j)
      ensures i == j
    {
      VersionedNameInjective(p, i, j);
    }
    version := 0;
    while VersionedName(p, version) in existing
      invariant Probed(name, version) <= existing
      decreases |existing| - version
    {
      ProbedSize(name, version + 1);
      SubsetCardinality(Probed(name, version + 1), existing);
      version := version + 1;
    }
    ProbedSize(name, version);
    SubsetCardinality(Probed(name, version), existing);
    forall v | 0 <= v < version
      ensures VersionedName(p, v) in existing
    {
      ProbedContains(name, version, v);
    }
  }

  /** Removes every ':' from a beacon address or experiment name
      (`strings.Replace(address, ":", "", -1)`). */
  function FormatAddress(address: string): (r: string)
    ensures ':' !in r
    ensures |r| <= |address|
    ensures ':' !in address ==> r == address
    ensures forall c :: c != ':' ==> multiset(r)[c] == multiset(address)[c]
    decreases |address|
  {
    if address == [] then []
    else
      assert address == [address[0]] + address[1..];
      if address[0] == ':' then FormatAddress(address[1..])
      else [address[0]] + FormatAddress(address[1..])
  }

  /** Stripping twice is the same as stripping once. */
  lemma FormatAddressIdempotent(address: string)
    ensures FormatAddress(FormatAddress(address)) == FormatAddress(address)
  {
  }

  /** Stripping works piecewise: it commutes with concatenation, so it keeps
      the order of the characters it keeps. */
  lemma {:induction false} FormatAddressConcat(a: string, b: string)
    ensures FormatAddress(a + b) == FormatAddress(a) + FormatAddress(b)
    decreases |a|
  {
    if a == [] {
      assert a + b == b;
    } else {
      assert (a + b)[0] == a[0];
      assert (a + b)[1..] == a[1..] + b;
      FormatAddressConcat(a[1..], b);
    }
  }
}
