/**
 * Name mapping of the image adapter: sampler names with their aliases, scheduler names,
 * and the scheduler list that `sdtype_get_info` reports.
 *
 * The engine's own tables (`str_to_sample_method`, `str_to_scheduler`,
 * `sd_scheduler_name`) are not part of this model; they are parameters. A scheduler is
 * its index in the engine's enumeration, and the count of that enumeration
 * (`SCHEDULER_COUNT`, which also means "default") is a parameter too.
 */
module Names {
  import opened Common

  /** The sampling methods the adapter names, any other one the engine knows, and `SAMPLE_METHOD_COUNT`. */
  datatype SampleMethod =
    | EulerA | Euler | Heun | Dpm2 | Lcm | DdimTrailing | DpmPP2M | ResMultistep | Res2S
    | OtherMethod(code: nat)
    | MethodCount

  /** The aliases `sampler_from_name` accepts when the engine does not know the name. */
  const Aliases: map<string, SampleMethod> := map[
    "euler a" := EulerA, "k_euler_a" := EulerA,
    "k_euler" := Euler,
    "k_heun" := Heun,
    "k_dpm_2" := Dpm2,
    "k_lcm" := Lcm,
    "ddim" := DdimTrailing,
    "dpm++ 2m karras" := DpmPP2M, "dpm++ 2m" := DpmPP2M, "k_dpmpp_2m" := DpmPP2M,
    "res multistep" := ResMultistep, "k_res_multistep" := ResMultistep,
    "res 2s" := Res2S, "k_res_2s" := Res2S
  ]

  /**
   * `sampler_from_name`: the engine's own answer when it knows the name, else the
   * alias, else `SAMPLE_METHOD_COUNT` (which the caller replaces by the default sampler).
   */
  function SamplerFromName(lookup: string -> SampleMethod, sampler: string): (r: SampleMethod)
    ensures lookup(sampler) != MethodCount ==> r == lookup(sampler)
    ensures lookup(sampler) == MethodCount && sampler in Aliases ==> r == Aliases[sampler]
    ensures lookup(sampler) == MethodCount && sampler !in Aliases ==> r == MethodCount
  {
    var result := lookup(sampler);
    if result != MethodCount then result
    else if sampler == "euler a" || sampler == "k_euler_a" then EulerA
    else if sampler == "k_euler" then Euler
    else if sampler == "k_heun" then Heun
    else if sampler == "k_dpm_2" then Dpm2
    else if sampler == "k_lcm" then Lcm
    else if sampler == "ddim" then DdimTrailing
    else if sampler == "dpm++ 2m karras" || sampler == "dpm++ 2m" || sampler == "k_dpmpp_2m" then DpmPP2M
    else if sampler == "res multistep" || sampler == "k_res_multistep" then ResMultistep
    else if sampler == "res 2s" || sampler == "k_res_2s" then Res2S
    else MethodCount
  }

  /** No alias maps to "unknown": a name the alias table knows always resolves. */
  lemma AliasesResolve(lookup: string -> SampleMethod, sampler: string)
    requires sampler in Aliases
    ensures SamplerFromName(lookup, sampler) != MethodCount
  {
  }

  /** The result is "unknown" exactly when neither the engine nor the alias table knows the name. */
  lemma SamplerUnknownIff(lookup: string -> SampleMethod, sampler: string)
    ensures SamplerFromName(lookup, sampler) == MethodCount <==>
      lookup(sampler) == MethodCount && sampler !in Aliases
  {
    if lookup(sampler) == MethodCount && sampler in Aliases {
      AliasesResolve(lookup, sampler);
    }
  }

  /**
   * `scheduler_from_name`: a missing name, or one the engine does not know, gives
   * `SCHEDULER_COUNT` ("default"). `lookup` is `str_to_scheduler`, which answers
   * `SCHEDULER_COUNT` for an unknown name and a scheduler below it otherwise, so the
   * test `result < SCHEDULER_COUNT` here agrees with the adapter's `!= SCHEDULER_COUNT`
   * on every answer it can give.
   */
  function SchedulerFromName(lookup: string -> nat, schedulerCount: nat, scheduler: Option<string>): (r: nat)
    ensures scheduler.None? ==> r == schedulerCount
    ensures scheduler.Some? && lookup(scheduler.value) < schedulerCount ==> r == lookup(scheduler.value)
    ensures scheduler.Some? && lookup(scheduler.value) >= schedulerCount ==> r == schedulerCount
    ensures r <= schedulerCount
  {
    if scheduler.Some? then
      var result := lookup(scheduler.value);
      if result < schedulerCount then result else schedulerCount
    else schedulerCount
  }

  /**
   * `get_scheduler_name`: "default" (or the empty suffix) for `SCHEDULER_COUNT`, else the
   * engine's name, preceded by a space when it is used as a sampler suffix.
   */
  function GetSchedulerName(nameOf: nat -> string, schedulerCount: nat, scheduler: nat, asSamplerSuffix: bool): (r: string)
    ensures scheduler == schedulerCount ==> r == (if asSamplerSuffix then "" else "default")
    ensures scheduler != schedulerCount && !asSamplerSuffix ==> r == nameOf(scheduler)
    ensures scheduler != schedulerCount && asSamplerSuffix ==> r == " " + nameOf(scheduler)
  {
    if scheduler == schedulerCount then
      if asSamplerSuffix then "" else "default"
    else
      var prefix := if asSamplerSuffix then " " else "";
      prefix + nameOf(scheduler)
  }

  /** The suffix form is the plain name behind one space, or nothing for the default. */
  lemma SuffixIsSpacedName(nameOf: nat -> string, schedulerCount: nat, scheduler: nat)
    ensures GetSchedulerName(nameOf, schedulerCount, scheduler, true) ==
      if scheduler == schedulerCount then ""
      else " " + GetSchedulerName(nameOf, schedulerCount, scheduler, false)
  {
  }

  const HiddenScheduler: string := "NONE"

  /** The names of schedulers `0 .. n-1` other than "NONE", in index order. */
  function ListedNames(nameOf: nat -> string, n: nat): (r: seq<string>)
    ensures |r| <= n
    ensures forall k :: 0 <= k < |r| ==> r[k] != HiddenScheduler
  {
    if n == 0 then []
    else ListedNames(nameOf, n - 1) + (if nameOf(n - 1) != HiddenScheduler then [nameOf(n - 1)] else [])
  }

  /** A scheduler below `n` is listed exactly when its name is not "NONE". */
  lemma {:induction false} ListedNamesComplete(nameOf: nat -> string, n: nat, i: nat)
    requires i < n && nameOf(i) != HiddenScheduler
    ensures nameOf(i) in ListedNames(nameOf, n)
  {
    if i < n - 1 {
      ListedNamesComplete(nameOf, n - 1, i);
    }
  }

  /** Every listed name is the name of some scheduler below `n`. */
  lemma {:induction false} ListedNamesSound(nameOf: nat -> string, n: nat, name: string)
    requires name in ListedNames(nameOf, n)
    ensures exists i :: 0 <= i < n && nameOf(i) == name
  {
    if n > 0 {
      var prev := ListedNames(nameOf, n - 1);
      if name in prev {
        ListedNamesSound(nameOf, n - 1, name);
      } else {
        assert nameOf(n - 1) == name;
      }
    }
  }

  /**
   * The scheduler list of `sdtype_get_info`: "default", then each engine scheduler
   * whose name is not "NONE". The status it reports is always 0.
   */
  method AvailableSchedulers(nameOf: nat -> string, schedulerCount: nat) returns (names: seq<string>, status: int)
    ensures names == ["default"] + ListedNames(nameOf, schedulerCount)
    ensures names[0] == "default" && |names| <= schedulerCount + 1
    ensures forall k :: 1 <= k < |names| ==> names[k] != HiddenScheduler
    ensures status == 0
  {
    names := ["default"];
    var i := 0;
    while i < schedulerCount
      invariant 0 <= i <= schedulerCount
      invariant names == ["default"] + ListedNames(nameOf, i)
    {
      var name := nameOf(i);
      if name != HiddenScheduler {
        names := names + [name];
      }
      i := i + 1;
    }
    status := 0;
  }
}
