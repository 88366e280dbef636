/**
 Multi-tenant instances of a service. A deployment stack is named after a
 standard base stack (`prod` or `dev`), optionally followed by an instance
 suffix such as `-myinst`; the suffix isolates an instance's global resources
 (hostnames, namespaces). The stack name is a parameter here instead of being
 read from the deployment engine.
 */
module Instances {
  import opened Wrappers

  /** The standard base stack names, in the order they are tried. */
  const StandardStackNames: seq<string> := ["prod", "dev"]

  /** A stack name taken apart into its standard base and the instance suffix. */
  datatype StackSplit = StackSplit(base: string, suffix: string)

  /** The failure raised when a stack name starts with no standard name. */
  datatype SplitError = NonStandardName(stackName: string)

  /** Python's `str.startswith`: `prefix` is an initial segment of `s`. */
  predicate StartsWith(s: string, prefix: string) {
    prefix <= s
  }

  /** True when `names[i]` is the first of `names` that `stackName` starts with. */
  ghost predicate FirstMatchAt(names: seq<string>, stackName: string, i: int) {
    && 0 <= i < |names|
    && StartsWith(stackName, names[i])
    && forall j :: 0 <= j < i ==> !StartsWith(stackName, names[j])
  }

  /**
   Tries `names` in order; the first one `stackName` starts with becomes the
   base and the rest of `stackName` the suffix.
   */
  function SplitWith(names: seq<string>, stackName: string): (r: Result<StackSplit, SplitError>)
    ensures r.Success? ==> exists i :: FirstMatchAt(names, stackName, i) && names[i] == r.value.base
    ensures r.Success? ==> r.value.base + r.value.suffix == stackName
    ensures r.Failure? <==> forall i :: 0 <= i < |names| ==> !StartsWith(stackName, names[i])
    ensures r.Failure? ==> r.error == NonStandardName(stackName)
  {
    if |names| == 0 then
      Failure(NonStandardName(stackName))
    else if StartsWith(stackName, names[0]) then
      Success(StackSplit(names[0], stackName[|names[0]|..]))
    else
      var r := SplitWith(names[1..], stackName);
      assert r.Success? ==> exists i :: FirstMatchAt(names[1..], stackName, i) && names[1..][i] == r.value.base;
      assert forall i :: FirstMatchAt(names[1..], stackName, i) ==> FirstMatchAt(names, stackName, i + 1);
      r
  }

  /**
   Splits a stack name into its standard base and instance suffix, failing
   when the name starts with neither `prod` nor `dev`.
   */
  function SplitStackName(stackName: string): (r: Result<StackSplit, SplitError>)
    ensures r.Success? <==> StartsWith(stackName, "prod") || StartsWith(stackName, "dev")
    ensures r.Success? ==> r.value.base == "prod" || r.value.base == "dev"
    ensures r.Success? ==> r.value.base + r.value.suffix == stackName
    ensures r.Success? ==> |r.value.suffix| == |stackName| - |r.value.base|
    ensures r.Success? ==> r.value.suffix == stackName[|r.value.base|..]
    ensures r.Failure? ==> r.error == NonStandardName(stackName)
  {
    var r := SplitWith(StandardStackNames, stackName);
    assert StandardStackNames[0] == "prod" && StandardStackNames[1] == "dev";
    assert r.Failure? <==> !StartsWith(stackName, StandardStackNames[0]) && !StartsWith(stackName, StandardStackNames[1]);
    r
  }

  /** No stack name starts with both standard names: neither is a prefix of the other. */
  lemma StandardNamesExclusive(stackName: string)
    ensures !(StartsWith(stackName, "prod") && StartsWith(stackName, "dev"))
  {
    if StartsWith(stackName, "prod") {
      assert stackName[0] == "prod"[0] == 'p';
      assert "dev"[0] == 'd';
    }
  }

  /**
   The split is unique: whichever standard name the stack name starts with is
   the base returned, with the remainder as suffix.
   */
  lemma SplitStackNameUnique(stackName: string, base: string)
    requires base in StandardStackNames
    requires StartsWith(stackName, base)
    ensures SplitStackName(stackName) == Success(StackSplit(base, stackName[|base|..]))
  {
    StandardNamesExclusive(stackName);
  }

  /**
   Joining a standard base with any suffix and splitting again gives back the
   same base and suffix; no separator is required between the two.
   */
  lemma SplitJoin(base: string, suffix: string)
    requires base in StandardStackNames
    ensures SplitStackName(base + suffix) == Success(StackSplit(base, suffix))
  {
    assert StartsWith(base + suffix, base);
    SplitStackNameUnique(base + suffix, base);
    assert (base + suffix)[|base|..] == suffix;
  }

  /** The examples of the function's documentation, and two edge cases. */
  lemma SplitStackNameExamples()
    ensures SplitStackName("prod") == Success(StackSplit("prod", ""))
    ensures SplitStackName("dev") == Success(StackSplit("dev", ""))
    ensures SplitStackName("prod-myinst") == Success(StackSplit("prod", "-myinst"))
    ensures SplitStackName("production") == Success(StackSplit("prod", "uction"))
    ensures SplitStackName("staging") == Failure(NonStandardName("staging"))
  {
    SplitJoin("prod", "");
    SplitJoin("dev", "");
    SplitJoin("prod", "-myinst");
    SplitJoin("prod", "uction");
    assert !StartsWith("staging", "prod") by { assert "staging"[0] != "prod"[0]; }
    assert !StartsWith("staging", "dev") by { assert "staging"[0] != "dev"[0]; }
  }
}
