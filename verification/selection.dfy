/**
  Target selection in the main loop: keep the envelopes whose sender matches a
  configured target, order them by id key, newest first, and take only the head.
 */
module Selection {
  import opened Wrappers
  import Text
  import opened Envelope

  /** The configured target senders (`TARGET_EMAILS`). */
  const TargetEmails: seq<string> := ["testuser001@outlook.com", "testuser001@outlook.in"]

  /** Reference meaning of a target envelope: some configured pattern occurs in
      its sender address (case-sensitive containment, no address parsing). */
  ghost predicate IsTarget(e: Envelope, targets: seq<string>)
  {
    exists t :: t in targets && Text.IsSubstring(t, SenderAddress(e.from))
  }

  /** `any(target in addr for target in targets)`. */
  function AnyContains(addr: string, targets: seq<string>): (b: bool)
    ensures b <==> exists t :: t in targets && Text.IsSubstring(t, addr)
    decreases |targets|
  {
    if |targets| == 0 then false
    else Text.Contains(addr, targets[0]) || AnyContains(addr, targets[1..])
  }

  /** The envelopes of `envs` whose sender matches a target, in listing order. */
  function FilterTargets(envs: seq<Envelope>, targets: seq<string>): (ts: seq<Envelope>)
    ensures |ts| <= |envs|
    ensures forall e :: e in ts <==> e in envs && IsTarget(e, targets)
    decreases |envs|
  {
    if |envs| == 0 then []
    else
      var keep := if AnyContains(SenderAddress(envs[0].from), targets) then [envs[0]] else [];
      keep + FilterTargets(envs[1..], targets)
  }

  /** Filtering commutes with concatenation: the filtered list keeps the
      listing order of the envelopes it keeps. */
  lemma {:induction false} FilterAppend(a: seq<Envelope>, b: seq<Envelope>, targets: seq<string>)
    ensures FilterTargets(a + b, targets) == FilterTargets(a, targets) + FilterTargets(b, targets)
    decreases |a|
  {
    if |a| > 0 {
      assert (a + b)[0] == a[0];
      assert (a + b)[1..] == a[1..] + b;
      FilterAppend(a[1..], b, targets);
    } else {
      assert a + b == b;
    }
  }

  /** `ts[k]` is what a stable descending sort by key puts first: its key is at
      least every key of `ts`, and every earlier element has a strictly smaller
      key (an equal key earlier in the list would have stayed ahead of it). */
  ghost predicate IsLatest(ts: seq<Envelope>, k: int)
    requires UniformKeys(ts)
  {
    && 0 <= k < |ts|
    && (forall j :: 0 <= j < |ts| ==> KeyLe(Key(ts[j]), Key(ts[k])))
    && (forall j :: 0 <= j < k ==> KeyLt(Key(ts[j]), Key(ts[k])))
  }

  /** Extending a list by one element: the latest of the longer list is the new
      element exactly when it is strictly greater than the previous latest. */
  lemma LatestStep(ts: seq<Envelope>, k: nat)
    requires |ts| > 1 && UniformKeys(ts)
    requires UniformKeys(ts[..|ts| - 1]) && IsLatest(ts[..|ts| - 1], k)
    ensures KeyLt(Key(ts[k]), Key(ts[|ts| - 1])) ==> IsLatest(ts, |ts| - 1)
    ensures !KeyLt(Key(ts[k]), Key(ts[|ts| - 1])) ==> IsLatest(ts, k)
  {
    var n := |ts| - 1;
    var init := ts[..n];
    assert forall j :: 0 <= j < n ==> init[j] == ts[j];
    KeyLeTotal(Key(ts[k]), Key(ts[n]));
    KeyLeReflexive(Key(ts[n]));
    if KeyLt(Key(ts[k]), Key(ts[n])) {
      forall j | 0 <= j < n
        ensures KeyLe(Key(ts[j]), Key(ts[n])) && KeyLt(Key(ts[j]), Key(ts[n]))
      {
        KeyLeTransitive(Key(ts[j]), Key(ts[k]), Key(ts[n]));
        if KeyLe(Key(ts[n]), Key(ts[j])) {
          KeyLeTransitive(Key(ts[n]), Key(ts[j]), Key(ts[k]));
        }
      }
    }
  }

  /** The position of the envelope a stable descending sort puts first. */
  function LatestIndex(ts: seq<Envelope>): (k: nat)
    requires |ts| > 0 && UniformKeys(ts)
    ensures IsLatest(ts, k)
    decreases |ts|
  {
    if |ts| == 1 then KeyLeReflexive(Key(ts[0])); 0
    else
      var n := |ts| - 1;
      assert forall j :: 0 <= j < n ==> ts[..n][j] == ts[j];
      var k := LatestIndex(ts[..n]);
      LatestStep(ts, k);
      if KeyLt(Key(ts[k]), Key(ts[n])) then n else k
  }

  /** At most one position satisfies `IsLatest`. */
  lemma LatestUnique(ts: seq<Envelope>, k1: int, k2: int)
    requires UniformKeys(ts) && IsLatest(ts, k1) && IsLatest(ts, k2)
    ensures k1 == k2
  {
    // Each is at least the other, so neither can be strictly below the other.
    assert KeyLe(Key(ts[k2]), Key(ts[k1]));
    assert KeyLe(Key(ts[k1]), Key(ts[k2]));
  }

  /** The single candidate of a cycle: the head of the target envelopes sorted
      by key, newest first, or nothing when no envelope is from a target. */
  function SelectLatest(envs: seq<Envelope>, targets: seq<string>): (r: Option<Envelope>)
    requires UniformKeys(FilterTargets(envs, targets))
    ensures r.None? <==> forall e :: e in envs ==> !IsTarget(e, targets)
    ensures r.Some? ==> r.value in envs && IsTarget(r.value, targets)
    ensures r.Some? ==> forall e :: e in envs && IsTarget(e, targets) ==>
                          SameKind(Key(e), Key(r.value)) && KeyLe(Key(e), Key(r.value))
  {
    var ts := FilterTargets(envs, targets);
    if |ts| == 0 then None
    else
      assert ts[0] in ts;
      var k := LatestIndex(ts);
      assert forall e :: e in ts ==> exists j :: 0 <= j < |ts| && ts[j] == e;
      Some(ts[k])
  }

  /** Ties go to the earliest target in listing order: whichever position of the
      filtered list satisfies `IsLatest` is the one selected. */
  lemma SelectIsLatest(envs: seq<Envelope>, targets: seq<string>, k: int)
    requires UniformKeys(FilterTargets(envs, targets))
    requires IsLatest(FilterTargets(envs, targets), k)
    ensures SelectLatest(envs, targets) == Some(FilterTargets(envs, targets)[k])
  {
    var ts := FilterTargets(envs, targets);
    LatestUnique(ts, k, LatestIndex(ts));
  }
}
