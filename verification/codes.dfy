/** Cheat codes and patches: which names are enabled, how the enabled list is
    brought back in line with the codes actually loaded, how ticking one entry
    of the code list edits it, and how `Save` splits the ticked entries into
    patches and codes. */
module Codes {
  import opened Common

  /** One entry of a code list, reduced to the fields the form consults. */
  datatype Code = Code(name: string, required: bool, patch: bool)

  /** A checkbox state as reported by `ItemCheckEventArgs.NewValue`. */
  datatype CheckState = Unchecked | Checked | Indeterminate

  /** The names of the loaded codes (the test `codes.Any(c => c.Name == a)`). */
  function Names(codes: seq<Code>): (names: set<string>)
  {
    set c | c in codes :: c.name
  }

  predicate IsPatch(c: Code) { c.patch }

  predicate IsPlain(c: Code) { !c.patch }

  /** The names of the loaded codes marked `Required`. */
  function RequiredNames(codes: seq<Code>): (names: set<string>)
  {
    set c | c in codes && c.required :: c.name
  }

  /** Appends, code by code, the name of every required code that is not yet
      enabled. The `Where` of the source is lazy, so the test "not yet
      enabled" sees the names added for earlier codes: two required codes that
      share a name add it once. */
  function AddRequired(acc: seq<string>, codes: seq<Code>): (r: seq<string>)
    ensures |acc| <= |r| && r[..|acc|] == acc
    ensures forall c :: c in codes && c.required ==> c.name in r
    decreases |codes|
  {
    if codes == [] then acc
    else
      var c := codes[0];
      var acc' := if c.required && c.name !in acc then acc + [c.name] else acc;
      var r := AddRequired(acc', codes[1..]);
      assert r[..|acc|] == acc by {
        assert r[..|acc'|] == acc';
        assert acc'[..|acc|] == acc;
      }
      assert c.required ==> c.name in r by {
        if c.required {
          var k :| 0 <= k < |acc'| && acc'[k] == c.name;
          assert r[..|acc'|] == acc';
          assert r[k] == c.name;
        }
      }
      assert codes == [c] + codes[1..];
      r
  }

  /** Only names of required codes are appended. */
  lemma {:induction false} AddRequiredOnlyRequired(acc: seq<string>, codes: seq<Code>)
    ensures forall i :: |acc| <= i < |AddRequired(acc, codes)| ==> AddRequired(acc, codes)[i] in RequiredNames(codes)
    decreases |codes|
  {
    if codes != [] {
      var c := codes[0];
      var acc' := if c.required && c.name !in acc then acc + [c.name] else acc;
      AddRequiredOnlyRequired(acc', codes[1..]);
      RequiredNamesTail(codes);
      var r := AddRequired(acc, codes);
      assert r == AddRequired(acc', codes[1..]);
      if acc' != acc {
        assert c in codes;
        assert r[..|acc'|] == acc';
        assert r[|acc|] == c.name;
      }
    }
  }

  lemma RequiredNamesTail(codes: seq<Code>)
    requires codes != []
    ensures RequiredNames(codes[1..]) <= RequiredNames(codes)
  {
    assert forall d :: d in codes[1..] ==> d in codes;
  }

  /** A name is appended only when it is not there yet, so no name repeats. */
  lemma {:induction false} AddRequiredNoDups(acc: seq<string>, codes: seq<Code>)
    requires NoDups(acc)
    ensures NoDups(AddRequired(acc, codes))
    decreases |codes|
  {
    if codes != [] {
      var c := codes[0];
      var acc' := if c.required && c.name !in acc then acc + [c.name] else acc;
      if acc' != acc {
        assert c.name !in acc;
        assert forall i :: 0 <= i < |acc| ==> acc'[i] == acc[i];
      }
      AddRequiredNoDups(acc', codes[1..]);
    }
  }

  /** The reconciliation `LoadModList` and `modListView_ItemCheck` both run:
      keep the enabled names that match a loaded code, in order, then enable
      every required code. */
  function Reconcile(enabled: seq<string>, codes: seq<Code>): (r: seq<string>)
    ensures forall i :: 0 <= i < |r| ==> r[i] in Names(codes)
    ensures forall c :: c in codes && c.required ==> c.name in r
    ensures forall n :: n in enabled && n in Names(codes) ==> n in r
    ensures NoDups(enabled) ==> NoDups(r)
    ensures var kept := Filter(MemberOf(Names(codes)), enabled);
            |kept| <= |r| && r[..|kept|] == kept &&
            forall i :: |kept| <= i < |r| ==> r[i] in RequiredNames(codes)
    ensures forall n :: n in r ==> (n in enabled && n in Names(codes)) || n in RequiredNames(codes)
  {
    var r := AddRequired(Filter(MemberOf(Names(codes)), enabled), codes);
    KeptNamesLoaded(enabled, codes, r);
    KeptEnabledStay(enabled, codes, r);
    KeptNoDups(enabled, codes, r);
    KeptOrRequired(enabled, codes, r);
    r
  }

  /** Nothing else is enabled: a name in the result was enabled and loaded,
      or is the name of a required code. */
  lemma KeptOrRequired(enabled: seq<string>, codes: seq<Code>, r: seq<string>)
    requires r == AddRequired(Filter(MemberOf(Names(codes)), enabled), codes)
    ensures forall i :: |Filter(MemberOf(Names(codes)), enabled)| <= i < |r| ==> r[i] in RequiredNames(codes)
    ensures forall n :: n in r ==> (n in enabled && n in Names(codes)) || n in RequiredNames(codes)
  {
    var kept := Filter(MemberOf(Names(codes)), enabled);
    FilterMembers(MemberOf(Names(codes)), enabled);
    AddRequiredOnlyRequired(kept, codes);
    forall n | n in r ensures (n in enabled && n in Names(codes)) || n in RequiredNames(codes) {
      var i :| 0 <= i < |r| && r[i] == n;
      if i < |kept| {
        assert r[..|kept|][i] == kept[i];
        assert MemberOf(Names(codes))(kept[i]);
      }
    }
  }

  lemma KeptNamesLoaded(enabled: seq<string>, codes: seq<Code>, r: seq<string>)
    requires r == AddRequired(Filter(MemberOf(Names(codes)), enabled), codes)
    ensures forall i :: 0 <= i < |r| ==> r[i] in Names(codes)
  {
    var kept := Filter(MemberOf(Names(codes)), enabled);
    FilterMembers(MemberOf(Names(codes)), enabled);
    AddRequiredOnlyRequired(kept, codes);
    forall i | 0 <= i < |r| ensures r[i] in Names(codes) {
      if i < |kept| {
        assert r[..|kept|][i] == kept[i];
        assert MemberOf(Names(codes))(kept[i]);
      } else {
        assert r[i] in RequiredNames(codes);
      }
    }
  }

  lemma KeptEnabledStay(enabled: seq<string>, codes: seq<Code>, r: seq<string>)
    requires r == AddRequired(Filter(MemberOf(Names(codes)), enabled), codes)
    ensures forall n :: n in enabled && n in Names(codes) ==> n in r
  {
    var kept := Filter(MemberOf(Names(codes)), enabled);
    FilterMembers(MemberOf(Names(codes)), enabled);
    forall n | n in enabled && n in Names(codes)
      ensures n in r
    {
      var i :| 0 <= i < |enabled| && enabled[i] == n;
      assert MemberOf(Names(codes))(enabled[i]);
      var k :| 0 <= k < |kept| && kept[k] == n;
      assert r[..|kept|][k] == kept[k];
    }
  }

  lemma KeptNoDups(enabled: seq<string>, codes: seq<Code>, r: seq<string>)
    requires r == AddRequired(Filter(MemberOf(Names(codes)), enabled), codes)
    ensures NoDups(enabled) ==> NoDups(r)
  {
    if NoDups(enabled) {
      FilterNoDups(MemberOf(Names(codes)), enabled);
      AddRequiredNoDups(Filter(MemberOf(Names(codes)), enabled), codes);
    }
  }

  /** Reconciling an already reconciled list changes nothing. */
  lemma ReconcileIdempotent(enabled: seq<string>, codes: seq<Code>)
    ensures Reconcile(Reconcile(enabled, codes), codes) == Reconcile(enabled, codes)
  {
    var r := Reconcile(enabled, codes);
    FilterAll(MemberOf(Names(codes)), r);
    AddRequiredNoop(r, codes);
  }

  /** When every required name is already enabled, nothing is appended. */
  lemma {:induction false} AddRequiredNoop(acc: seq<string>, codes: seq<Code>)
    requires forall c :: c in codes && c.required ==> c.name in acc
    ensures AddRequired(acc, codes) == acc
    decreases |codes|
  {
    if codes != [] {
      AddRequiredNoop(acc, codes[1..]);
    }
  }

  /** The result of `codesCheckedListBox_ItemCheck`: the check state the box
      will take and the enabled-code list after the edit. */
  datatype ItemCheck = ItemCheck(newValue: CheckState, enabled: seq<string>)

  /** `codesCheckedListBox_ItemCheck` for entry `index` of the code list. */
  function OnCodeCheck(codes: seq<Code>, index: int, newValue: CheckState, enabled: seq<string>): (r: ItemCheck)
    requires 0 <= index < |codes|
    ensures codes[index].required ==> r.newValue == Checked
    ensures !codes[index].required ==> r.newValue == newValue
    ensures r.newValue == Unchecked && codes[index].name !in enabled ==> r.enabled == enabled
    ensures r.newValue == Unchecked && codes[index].name in enabled ==>
      exists i :: 0 <= i < |enabled| && enabled[i] == codes[index].name && codes[index].name !in enabled[..i] &&
                  r.enabled == enabled[..i] + enabled[i + 1..]
    ensures r.newValue == Unchecked ==>
      multiset(r.enabled) == multiset(enabled) - multiset{codes[index].name}
    ensures r.newValue == Unchecked && NoDups(enabled) ==> codes[index].name !in r.enabled
    ensures r.newValue != Unchecked && codes[index].name in enabled ==> r.enabled == enabled
    ensures r.newValue != Unchecked && codes[index].name !in enabled ==> r.enabled == enabled + [codes[index].name]
    ensures NoDups(enabled) ==> NoDups(r.enabled)
  {
    var code := codes[index];
    var state := if code.required then Checked else newValue;
    if state == Unchecked then
      UncheckFacts(enabled, code.name);
      ItemCheck(state, if code.name in enabled then RemoveFirst(enabled, code.name) else enabled)
    else
      var r := if code.name !in enabled then enabled + [code.name] else enabled;
      assert NoDups(enabled) ==> NoDups(r) by {
        if NoDups(enabled) && code.name !in enabled {
          assert forall i :: 0 <= i < |enabled| ==> r[i] == enabled[i];
        }
      }
      ItemCheck(state, r)
  }

  /** What `List.Remove` of a code's name does to the enabled list. */
  lemma UncheckFacts(enabled: seq<string>, n: string)
    ensures n in enabled ==>
      exists i :: 0 <= i < |enabled| && enabled[i] == n && n !in enabled[..i] &&
                  RemoveFirst(enabled, n) == enabled[..i] + enabled[i + 1..]
    ensures multiset(RemoveFirst(enabled, n)) == multiset(enabled) - multiset{n}
    ensures NoDups(enabled) ==> NoDups(RemoveFirst(enabled, n)) && n !in RemoveFirst(enabled, n)
  {
    if n in enabled {
      RemoveFirstAt(enabled, n);
    }
    RemoveFirstMultiset(enabled, n);
    if NoDups(enabled) {
      RemoveFirstNoDups(enabled, n);
    }
  }

  /** Ticking an entry whose name is not enabled and then unticking it again
      restores the enabled list (for an entry that is not required). */
  lemma CheckThenUncheck(codes: seq<Code>, index: int, enabled: seq<string>)
    requires 0 <= index < |codes|
    requires !codes[index].required && codes[index].name !in enabled
    ensures OnCodeCheck(codes, index, Unchecked, OnCodeCheck(codes, index, Checked, enabled).enabled).enabled == enabled
  {
    var n := codes[index].name;
    assert OnCodeCheck(codes, index, Checked, enabled).enabled == enabled + [n];
    RemoveFirstSplice(enabled, n, []);
    assert enabled + [n] + [] == enabled + [n];
  }

  /** The codes whose boxes are ticked, in list order (`CheckedIndices`). */
  function Ticked(codes: seq<Code>, ticked: seq<bool>): (r: seq<Code>)
    requires |ticked| == |codes|
    ensures |r| <= |codes|
    ensures forall i :: 0 <= i < |codes| && ticked[i] ==> codes[i] in r
    ensures forall c :: c in r ==> exists i :: 0 <= i < |codes| && ticked[i] && codes[i] == c
    decreases |codes|
  {
    if codes == [] then []
    else
      var n := |codes| - 1;
      var step := if ticked[n] then [codes[n]] else [];
      var r := Ticked(codes[..n], ticked[..n]) + step;
      TickedExtend(codes, ticked, Ticked(codes[..n], ticked[..n]), r);
      r
  }

  /** The two membership facts of `Ticked`, carried from the first `n` entries to all of them. */
  lemma TickedExtend(codes: seq<Code>, ticked: seq<bool>, p: seq<Code>, r: seq<Code>)
    requires |ticked| == |codes| > 0
    requires var n := |codes| - 1;
             && (forall i :: 0 <= i < n && ticked[..n][i] ==> codes[..n][i] in p)
             && (forall c :: c in p ==> exists i :: 0 <= i < n && ticked[..n][i] && codes[..n][i] == c)
             && r == p + (if ticked[n] then [codes[n]] else [])
    ensures forall i :: 0 <= i < |codes| && ticked[i] ==> codes[i] in r
    ensures forall c :: c in r ==> exists i :: 0 <= i < |codes| && ticked[i] && codes[i] == c
  {
    var n := |codes| - 1;
    forall i | 0 <= i < |codes| && ticked[i] ensures codes[i] in r {
      if i < n {
        assert ticked[..n][i] && codes[..n][i] == codes[i];
      }
    }
    forall c | c in r ensures exists i :: 0 <= i < |codes| && ticked[i] && codes[i] == c {
      if c in p {
        var i :| 0 <= i < n && ticked[..n][i] && codes[..n][i] == c;
        assert ticked[i] && codes[i] == c;
      } else {
        assert ticked[n] && codes[n] == c;
      }
    }
  }

  /** The loop at the end of `Save`: every ticked entry goes to the patch file
      when it is a patch and to the code file otherwise, in list order. */
  method SplitTicked(codes: seq<Code>, ticked: seq<bool>) returns (patches: seq<Code>, plain: seq<Code>)
    requires |ticked| == |codes|
    ensures patches == Filter(IsPatch, Ticked(codes, ticked))
    ensures plain == Filter(IsPlain, Ticked(codes, ticked))
  {
    patches, plain := [], [];
    var i := 0;
    while i < |codes|
      invariant 0 <= i <= |codes|
      invariant patches == Filter(IsPatch, Ticked(codes[..i], ticked[..i]))
      invariant plain == Filter(IsPlain, Ticked(codes[..i], ticked[..i]))
    {
      TickedStep(codes, ticked, i);
      if ticked[i] {
        if codes[i].patch {
          patches := patches + [codes[i]];
        } else {
          plain := plain + [codes[i]];
        }
      }
      i := i + 1;
    }
    assert codes[..i] == codes && ticked[..i] == ticked;
  }

  /** One more entry of the list extends both outputs by at most that entry. */
  lemma TickedStep(codes: seq<Code>, ticked: seq<bool>, i: int)
    requires |ticked| == |codes| && 0 <= i < |codes|
    ensures var t := Ticked(codes[..i], ticked[..i]);
            var t' := Ticked(codes[..i + 1], ticked[..i + 1]);
            && Filter(IsPatch, t') == Filter(IsPatch, t) + (if ticked[i] && codes[i].patch then [codes[i]] else [])
            && Filter(IsPlain, t') == Filter(IsPlain, t) + (if ticked[i] && !codes[i].patch then [codes[i]] else [])
  {
    assert codes[..i + 1][..i] == codes[..i];
    assert ticked[..i + 1][..i] == ticked[..i];
    var step := if ticked[i] then [codes[i]] else [];
    var t := Ticked(codes[..i], ticked[..i]);
    assert Ticked(codes[..i + 1], ticked[..i + 1]) == t + step;
    FilterConcat(IsPatch, t, step);
    FilterConcat(IsPlain, t, step);
  }

  /** Patches and codes together are exactly the ticked entries. */
  lemma {:induction false} SplitPartitions(s: seq<Code>)
    ensures multiset(Filter(IsPatch, s)) + multiset(Filter(IsPlain, s)) == multiset(s)
  {
    if s != [] {
      var h, t := s[0], s[1..];
      assert s == [h] + t;
      SplitPartitions(t);
      FilterCons(IsPatch, h, t);
      FilterCons(IsPlain, h, t);
    }
  }
}
