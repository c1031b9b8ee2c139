/**
  Set-up of a bsonsplit run: the check on the fan-out count (`validate`) and the
  names of the output files (`create_files`).

  The clock reading is a parameter (`None` when the clock lies before the Unix
  epoch), and so is the set of paths that the file system refuses to create.
 */
module Naming {
  import opened Errors
  import opened Decode

  /** `validate`: a fan-out count below one is a usage error. */
  function Validate(split: nat): (r: Result<(), Error>)
    ensures r.Ok? <==> split >= 1
    ensures r.Err? ==> r.error == Usage
  {
    if split < 1 then Err(Usage) else Ok(())
  }

  predicate IsDigit(c: char) { '0' <= c <= '9' }

  function DigitChar(d: nat): (c: char)
    requires d < 10
    ensures IsDigit(c) && DigitValue(c) == d
  {
    (d + '0' as int) as char
  }

  function DigitValue(c: char): (d: nat)
    requires IsDigit(c)
    ensures d < 10
  {
    c as int - '0' as int
  }

  /** Decimal text of `n` as Rust's `{}` formatting writes it: digits only, no leading zero. */
  function NatToString(n: nat): (s: string)
    ensures |s| >= 1
    ensures forall i :: 0 <= i < |s| ==> IsDigit(s[i])
    ensures |s| > 1 ==> s[0] != '0'
    ensures n < 10 <==> |s| == 1
  {
    if n < 10 then [DigitChar(n)] else NatToString(n / 10) + [DigitChar(n % 10)]
  }

  /** The value of a string of decimal digits. */
  function ParseNat(s: string): nat
    requires forall i :: 0 <= i < |s| ==> IsDigit(s[i])
  {
    if s == [] then 0
    else ParseNat(s[..|s| - 1]) * 10 + DigitValue(s[|s| - 1])
  }

  /** Reading the decimal text back gives the number: the formatting loses nothing. */
  lemma {:induction false} ParseNatToString(n: nat)
    ensures ParseNat(NatToString(n)) == n
  {
    var s := NatToString(n);
    if n >= 10 {
      ParseNatToString(n / 10);
      assert s[..|s| - 1] == NatToString(n / 10);
    }
  }

  /** Distinct numbers have distinct decimal texts. */
  lemma NatToStringInjective(a: nat, b: nat)
    requires NatToString(a) == NatToString(b)
    ensures a == b
  {
    ParseNatToString(a);
    ParseNatToString(b);
  }

  /** The fixed part every output path of one run starts with: `"{prefix}-{runtime}-"`. */
  function PathHead(prefix: string, runtime: nat): string
  {
    prefix + "-" + NatToString(runtime) + "-"
  }

  /** The `i`-th output path: `"{prefix}-{runtime}-{i}.bson"`. */
  function PathName(prefix: string, runtime: nat, i: nat): string
  {
    PathHead(prefix, runtime) + NatToString(i) + ".bson"
  }

  /** The index of a path can be read back from it: the text between the fixed head and `.bson`. */
  lemma PathIndex(prefix: string, runtime: nat, i: nat)
    ensures var p, h := PathName(prefix, runtime, i), PathHead(prefix, runtime);
      |h| < |p| - 5 && p[..|h|] == h && p[|p| - 5..] == ".bson" &&
      (forall k :: |h| <= k < |p| - 5 ==> IsDigit(p[k])) &&
      ParseNat(p[|h|..|p| - 5]) == i
  {
    var p, h := PathName(prefix, runtime, i), PathHead(prefix, runtime);
    assert p[|h|..|p| - 5] == NatToString(i);
    ParseNatToString(i);
  }

  /** Within one run (one prefix, one clock reading) no two output paths coincide. */
  lemma PathNamesDistinct(prefix: string, runtime: nat, i: nat, j: nat)
    requires i != j
    ensures PathName(prefix, runtime, i) != PathName(prefix, runtime, j)
  {
    PathIndex(prefix, runtime, i);
    PathIndex(prefix, runtime, j);
  }

  /** The paths a run with fan-out `split` reports, for indices 1 to `split` in order. */
  function Paths(prefix: string, runtime: nat, split: nat): (ps: seq<string>)
    ensures |ps| == split
    ensures forall k :: 0 <= k < split ==> ps[k] == PathName(prefix, runtime, k + 1)
  {
    seq(split, k requires 0 <= k => PathName(prefix, runtime, k + 1))
  }

  /** The paths of one run are pairwise distinct: no output file is created twice. */
  lemma PathsDistinct(prefix: string, runtime: nat, split: nat)
    ensures forall a, b :: 0 <= a < b < split ==> Paths(prefix, runtime, split)[a] != Paths(prefix, runtime, split)[b]
  {
    forall a, b | 0 <= a < b < split
      ensures Paths(prefix, runtime, split)[a] != Paths(prefix, runtime, split)[b]
    {
      PathNamesDistinct(prefix, runtime, a + 1, b + 1);
    }
  }

  /** None of the `split` paths of the run is refused by the file system. */
  predicate Creatable(prefix: string, runtime: nat, split: nat, unwritable: set<string>)
  {
    forall i :: 1 <= i <= split ==> PathName(prefix, runtime, i) !in unwritable
  }

  /**
    `create_files`: reads the clock once, then for `i` from 1 to `split` builds the
    path and creates the file, stopping at the first file that cannot be created.
    On success it returns the paths in creation order. `created` lists the files
    the call leaves on disk, in creation order, whether it succeeds or not.
   */
  method CreateFiles(prefix: string, clock: Option<nat>, split: nat, unwritable: set<string>)
    returns (r: Result<seq<string>, Error>, created: seq<string>)
    ensures clock.None? ==> r == Err(ClockFailed) && created == []
    ensures clock.Some? ==> (r.Ok? <==> Creatable(prefix, clock.value, split, unwritable))
    ensures r.Ok? ==> clock.Some? && r.value == created == Paths(prefix, clock.value, split)
    ensures clock.Some? && r.Err? ==>
      r.error == CreateFailed &&
      exists i :: 1 <= i <= split && PathName(prefix, clock.value, i) in unwritable &&
        Creatable(prefix, clock.value, i - 1, unwritable) && created == Paths(prefix, clock.value, i - 1)
  {
    created := [];
    if clock.None? {
      return Err(ClockFailed), created;
    }
    var runtime := clock.value;
    var paths: seq<string> := [];
    for i := 1 to split + 1
      invariant paths == created == Paths(prefix, runtime, i - 1)
      invariant Creatable(prefix, runtime, i - 1, unwritable)
    {
      var filename := PathName(prefix, runtime, i);
      paths := paths + [filename];
      if filename in unwritable {
        return Err(CreateFailed), created;
      }
      created := created + [filename];
    }
    return Ok(paths), created;
  }
}
