/** The whole re-sharing pass: every group in turn, whatever fails, and what its report is worth at the end. */
module ClonePass {
  import opened CloneGroups
  import opened Decimal
  import opened Format

  datatype Group = Group(name: Text, members: seq<Name>)

  datatype Outcome = Shared(group: Text, members: nat) | NotShared(group: Text, shared: nat, reason: IoError)

  // How many partners an outcome claims.
  function Count(o: Outcome): nat {
    match o
    case Shared(_, members) => if members == 0 then 0 else members - 1
    case NotShared(_, shared, _) => shared
  }

  // ---------- a pass as its states ----------

  // One group: skipped, or worked through as far as its outcome says.
  ghost predicate Stage(fs: Fs, after: Fs, group: Group, told: Option<Outcome>) {
    && Sound(fs) && Sound(after)
    && if |group.members| < 2 then told.None? && after == fs
       else
         && told.Some? && told.value.group == group.name && Count(told.value) < |group.members|
         && (told.value.Shared? ==> told.value.members == |group.members|)
         && (told.value.NotShared? ==> Count(told.value) + 1 < |group.members|)
         && GroupProgress(fs, after, group.members, Count(told.value))
  }

  // The state before each group and after the last, and what was told about each.
  ghost predicate Pass(trace: seq<Fs>, groups: seq<Group>, told: seq<Option<Outcome>>) {
    && |trace| == |groups| + 1 && |told| == |groups| && Sound(trace[0])
    && forall i :: 0 <= i < |groups| ==> Stage(trace[i], trace[i + 1], groups[i], told[i])
  }

  function Reports(told: seq<Option<Outcome>>): seq<Outcome> {
    if told == [] then []
    else Reports(told[..|told| - 1]) + if told[|told| - 1].Some? then [told[|told| - 1].value] else []
  }

  // The names an outcome says were re-shared.
  ghost function MovedBy(group: Group, told: Option<Outcome>): set<Name> {
    if told.Some? then Moved(group.members, Count(told.value)) else {}
  }

  ghost function MovedIn(groups: seq<Group>, told: seq<Option<Outcome>>, a: nat, b: nat): set<Name>
    requires a <= b <= |groups| == |told|
  {
    if a == b then {} else MovedIn(groups, told, a, b - 1) + MovedBy(groups[b - 1], told[b - 1])
  }

  lemma StageKeeps(fs: Fs, after: Fs, group: Group, told: Option<Outcome>)
    requires Stage(fs, after, group, told)
    ensures Sound(fs) && Sound(after) && Keeps(fs, after) && Extends(fs, after, MovedBy(group, told))
    ensures forall n :: n in MovedBy(group, told) ==> Solo(after, n)
  {
    hide Sound, Solo, Moved, Shares, NodeOf, BytesOf;
  }

  lemma NothingMoved(fs: Fs)
    requires Sound(fs)
    ensures Keeps(fs, fs) && Extends(fs, fs, {})
  {
  }

  lemma {:induction false} PassSound(trace: seq<Fs>, groups: seq<Group>, told: seq<Option<Outcome>>, i: nat)
    requires Pass(trace, groups, told) && i <= |groups|
    ensures Sound(trace[i])
  {
    hide Sound, GroupProgress;
    if i > 0 {
      assert Stage(trace[i - 1], trace[i - 1 + 1], groups[i - 1], told[i - 1]);
    }
  }

  // From one state of a pass to a later one.
  lemma {:induction false} PassKeeps(trace: seq<Fs>, groups: seq<Group>, told: seq<Option<Outcome>>, a: nat, b: nat)
    requires Pass(trace, groups, told) && a <= b <= |groups|
    ensures Sound(trace[a]) && Sound(trace[b]) && Keeps(trace[a], trace[b])
    ensures Extends(trace[a], trace[b], MovedIn(groups, told, a, b))
    decreases b
  {
    hide Sound, Keeps, Extends, Stage, MovedBy;
    PassSound(trace, groups, told, a);
    if a == b {
      NothingMoved(trace[a]);
    } else {
      PassKeeps(trace, groups, told, a, b - 1);
      StageAt(trace, groups, told, b - 1);
      StageKeeps(trace[b - 1], trace[b], groups[b - 1], told[b - 1]);
      KeepsTransitive(trace[a], trace[b - 1], trace[b]);
      ExtendsTransitive(trace[a], trace[b - 1], trace[b], MovedIn(groups, told, a, b - 1),
                        MovedBy(groups[b - 1], told[b - 1]));
    }
  }

  lemma StageAt(trace: seq<Fs>, groups: seq<Group>, told: seq<Option<Outcome>>, i: nat)
    requires Pass(trace, groups, told) && i < |groups|
    ensures Stage(trace[i], trace[i + 1], groups[i], told[i])
  {
    hide Stage;
  }

  // ---------- what an outcome is worth ----------

  // Exactly the partners counted share with the first member, and any that shared with it before.
  ghost predicate Truthful(fs0: Fs, fs: Fs, group: Group, outcome: Outcome)
    requires Sound(fs0) && Sound(fs)
  {
    outcome.group == group.name && Counted(fs0, fs, group.members, Count(outcome))
  }

  // When it is made, every outcome is true, for every group map.
  lemma TrueWhenTold(trace: seq<Fs>, groups: seq<Group>, told: seq<Option<Outcome>>, i: nat)
    requires Pass(trace, groups, told) && i < |groups| && told[i].Some?
    ensures Sound(trace[i]) && Sound(trace[i + 1]) && Truthful(trace[i], trace[i + 1], groups[i], told[i].value)
  {
    hide Sound, Counted, GroupProgress;
    StageAt(trace, groups, told, i);
    ProgressCounted(trace[i], trace[i + 1], groups[i].members, Count(told[i].value));
  }

  // No partner of a later group is a member of this one.
  ghost predicate LeftAlone(groups: seq<Group>, i: nat)
    requires i < |groups|
  {
    forall j, k :: i < j < |groups| && 1 <= k < |groups[j].members| ==> groups[j].members[k] !in groups[i].members
  }

  // No partner of an earlier group is a member of this one.
  ghost predicate Untouched(groups: seq<Group>, i: nat)
    requires i < |groups|
  {
    forall j, k :: 0 <= j < i && 1 <= k < |groups[j].members| ==> groups[j].members[k] !in groups[i].members
  }

  lemma {:induction false} MovedArePartners(groups: seq<Group>, told: seq<Option<Outcome>>, a: nat, b: nat, n: Name)
    requires a <= b <= |groups| == |told| && n in MovedIn(groups, told, a, b)
    ensures exists j, k :: a <= j < b && 1 <= k < |groups[j].members| && groups[j].members[k] == n
    decreases b
  {
    if n in MovedBy(groups[b - 1], told[b - 1]) {
      var k :| 1 <= k < |groups[b - 1].members| && groups[b - 1].members[k] == n;
    } else {
      MovedArePartners(groups, told, a, b - 1, n);
    }
  }

  lemma Unmoved(groups: seq<Group>, told: seq<Option<Outcome>>, i: nat)
    requires i < |groups| == |told|
    ensures LeftAlone(groups, i) ==>
              forall n :: n in groups[i].members ==> n !in MovedIn(groups, told, i + 1, |groups|)
    ensures Untouched(groups, i) ==> forall n :: n in groups[i].members ==> n !in MovedIn(groups, told, 0, i)
  {
    hide MovedIn;
    forall n | n in groups[i].members && n in MovedIn(groups, told, i + 1, |groups|)
      ensures !LeftAlone(groups, i)
    {
      MovedArePartners(groups, told, i + 1, |groups|, n);
    }
    forall n | n in groups[i].members && n in MovedIn(groups, told, 0, i)
      ensures !Untouched(groups, i)
    {
      MovedArePartners(groups, told, 0, i, n);
    }
  }

  lemma CountedKept(fs0: Fs, fs: Fs, after: Fs, moved: set<Name>, members: seq<Name>, shared: nat)
    requires Sound(fs0) && Sound(fs) && Sound(after) && Extends(fs, after, moved)
    requires forall n :: n in fs0.names ==> n in fs.names
    requires Counted(fs0, fs, members, shared) && forall n :: n in members ==> n !in moved
    ensures Counted(fs0, after, members, shared)
  {
    hide Sound, Shares, Moved, Extends;
    forall j | 1 <= j < |members| && members[j] in fs0.names && members[0] in fs0.names
      ensures Shares(after, members[j], members[0]) <==> Shares(fs, members[j], members[0])
    {
      SharesKept(fs, after, moved, members[j], members[0]);
    }
  }

  // A group none of whose names has moved counts the same from the start of the pass.
  lemma CountedFromStart(fs0: Fs, fs: Fs, after: Fs, moved: set<Name>, members: seq<Name>, shared: nat)
    requires Sound(fs0) && Sound(fs) && Sound(after) && Extends(fs0, fs, moved)
    requires Counted(fs, after, members, shared) && forall n :: n in members ==> n !in moved
    ensures Counted(fs0, after, members, shared)
  {
    hide Sound, Shares, Moved, Extends;
    NamesKept(fs0, fs, moved);
    forall j | 1 <= j < |members| && members[j] in fs0.names && members[0] in fs0.names
      ensures Shares(fs, members[j], members[0]) <==> Shares(fs0, members[j], members[0])
    {
      SharesKept(fs0, fs, moved, members[j], members[0]);
    }
  }

  // At the end it is still true if no later group re-shares one of its members, whatever failed.
  lemma TrueAtTheEnd(trace: seq<Fs>, groups: seq<Group>, told: seq<Option<Outcome>>, i: nat)
    requires Pass(trace, groups, told) && i < |groups| && told[i].Some? && LeftAlone(groups, i)
    ensures Sound(trace[i]) && Sound(trace[|groups|]) && Truthful(trace[i], trace[|groups|], groups[i], told[i].value)
    ensures Untouched(groups, i) ==>
              Sound(trace[0]) && Truthful(trace[0], trace[|groups|], groups[i], told[i].value)
  {
    hide Sound, Counted, Extends, Keeps, LeftAlone, Untouched, MovedIn, Stage;
    var (n, members, count) := (|groups|, groups[i].members, Count(told[i].value));
    TrueWhenTold(trace, groups, told, i);
    PassKeeps(trace, groups, told, i, i + 1);
    PassKeeps(trace, groups, told, i + 1, n);
    PassKeeps(trace, groups, told, 0, i);
    Unmoved(groups, told, i);
    NamesKept(trace[i], trace[i + 1], MovedIn(groups, told, i, i + 1));
    CountedKept(trace[i], trace[i + 1], trace[n], MovedIn(groups, told, i + 1, n), members, count);
    if Untouched(groups, i) {
      CountedFromStart(trace[0], trace[i], trace[n], MovedIn(groups, told, 0, i), members, count);
    }
  }

  // Distinct members, none sharing before: the count says exactly which partners share.
  lemma ExactCount(fs0: Fs, fs: Fs, members: seq<Name>, shared: nat)
    requires Sound(fs0) && Sound(fs) && Counted(fs0, fs, members, shared)
    requires forall i, j :: 0 <= i < j < |members| ==> members[i] != members[j]
    requires forall j :: 0 <= j < |members| ==> members[j] in fs0.names
    requires forall j :: 1 <= j < |members| ==> !Shares(fs0, members[j], members[0])
    ensures forall j :: 1 <= j < |members| ==> (Shares(fs, members[j], members[0]) <==> j <= shared)
  {
    hide Shares, Sound;
    forall j | 1 <= j < |members|
      ensures members[j] in Moved(members, shared) <==> j <= shared
    {
    }
  }

  // ---------- hard links ----------

  ghost predicate Linked(fs: Fs, a: Name, b: Name) {
    a in fs.names && b in fs.names && fs.names[a] == fs.names[b]
  }

  lemma {:induction false} MovedAreSolo(trace: seq<Fs>, groups: seq<Group>, told: seq<Option<Outcome>>, b: nat, n: Name)
    requires Pass(trace, groups, told) && b <= |groups| && n in MovedIn(groups, told, 0, b)
    ensures Solo(trace[b], n)
    decreases b
  {
    hide Solo, Stage, MovedBy, Sound;
    StageAt(trace, groups, told, b - 1);
    StageKeeps(trace[b - 1], trace[b], groups[b - 1], told[b - 1]);
    if n !in MovedBy(groups[b - 1], told[b - 1]) {
      MovedAreSolo(trace, groups, told, b - 1, n);
      SoloKept(trace[b - 1], trace[b], MovedBy(groups[b - 1], told[b - 1]), n);
    }
  }

  lemma SoloKept(fs: Fs, after: Fs, moved: set<Name>, n: Name)
    requires Sound(fs) && Extends(fs, after, moved) && Solo(fs, n) && n !in moved
    ensures Solo(after, n)
  {
  }

  lemma LinksKept(fs: Fs, after: Fs, moved: set<Name>, a: Name, b: Name)
    requires Extends(fs, after, moved) && a in fs.names && b in fs.names && a != b
    requires a in moved ==> Solo(after, a)
    requires b in moved ==> Solo(after, b)
    ensures Linked(after, a, b) <==> Linked(fs, a, b) && a !in moved && b !in moved
  {
  }

  // Two names stay one file exactly when neither was re-shared.
  lemma LinksSplit(trace: seq<Fs>, groups: seq<Group>, told: seq<Option<Outcome>>, a: Name, b: Name)
    requires Pass(trace, groups, told) && a in trace[0].names && b in trace[0].names && a != b
    ensures var moved := MovedIn(groups, told, 0, |groups|);
            Linked(trace[|groups|], a, b) <==> Linked(trace[0], a, b) && a !in moved && b !in moved
  {
    hide Sound, Solo, Stage, MovedIn, Extends, Keeps, Linked;
    var moved := MovedIn(groups, told, 0, |groups|);
    PassKeeps(trace, groups, told, 0, |groups|);
    if a in moved {
      MovedAreSolo(trace, groups, told, |groups|, a);
    }
    if b in moved {
      MovedAreSolo(trace, groups, told, |groups|, b);
    }
    LinksKept(trace[0], trace[|groups|], moved, a, b);
  }

  // ---------- who shares with whom at the end ----------

  // The name whose extents a name has after the groups, by the outcomes.
  ghost function Origin(groups: seq<Group>, told: seq<Option<Outcome>>, n: Name): Name
    requires |told| == |groups|
  {
    if groups == [] then n
    else
      var last := |groups| - 1;
      Origin(groups[..last], told[..last], Source(groups[last], told[last], n))
  }

  // The name a group gives a name the extents of.
  ghost function Source(group: Group, told: Option<Outcome>, n: Name): Name {
    if n in MovedBy(group, told) && group.members != [] then group.members[0] else n
  }

  lemma OriginStep(groups: seq<Group>, told: seq<Option<Outcome>>, group: Group, o: Option<Outcome>, n: Name)
    requires |told| == |groups|
    ensures Origin(groups + [group], told + [o], n) == Origin(groups, told, Source(group, o, n))
  {
    var (gs, os) := (groups + [group], told + [o]);
    assert gs[..|groups|] == groups && os[..|groups|] == told && gs[|groups|] == group && os[|groups|] == o;
  }

  // Every name has the extents its origin had at the start.
  ghost predicate Placed(fs0: Fs, fs: Fs, groups: seq<Group>, told: seq<Option<Outcome>>) {
    && |told| == |groups| && Sound(fs0) && Sound(fs)
    && forall n {:trigger Origin(groups, told, n)} :: n in fs0.names ==> PlacedAt(fs0, fs, n, Origin(groups, told, n))
  }

  ghost predicate PlacedAt(fs0: Fs, fs: Fs, n: Name, origin: Name)
    requires Sound(fs0) && Sound(fs)
  {
    n in fs.names && origin in fs0.names && NodeOf(fs, n).storage == NodeOf(fs0, origin).storage
  }

  // Every first member that was cloned from existed at the start.
  ghost predicate Rooted(fs: Fs, groups: seq<Group>, told: seq<Option<Outcome>>) {
    && |told| == |groups|
    && forall i :: 0 <= i < |groups| && MovedBy(groups[i], told[i]) != {} ==>
      groups[i].members != [] && groups[i].members[0] in fs.names
  }

  ghost predicate FirstsExist(fs: Fs, groups: seq<Group>) {
    forall i :: 0 <= i < |groups| && |groups[i].members| >= 2 ==> groups[i].members[0] in fs.names
  }

  lemma StageFirst(fs: Fs, after: Fs, group: Group, told: Option<Outcome>)
    requires Stage(fs, after, group, told) && MovedBy(group, told) != {}
    ensures |group.members| >= 2 && group.members[0] in after.names
  {
    hide Keeps, Solo, Sound, Extends;
    var n :| n in MovedBy(group, told);
    assert Shares(after, group.members[1], group.members[0]);
  }

  // That is so if all first members did, or if the pass left no new name.
  lemma PassRooted(trace: seq<Fs>, groups: seq<Group>, told: seq<Option<Outcome>>)
    requires Pass(trace, groups, told)
    requires FirstsExist(trace[0], groups) || trace[|groups|].names.Keys <= trace[0].names.Keys
    ensures Rooted(trace[0], groups, told)
  {
    hide Stage, Sound, MovedBy, MovedIn, Keeps, Extends;
    forall i | 0 <= i < |groups| && MovedBy(groups[i], told[i]) != {}
      ensures groups[i].members != [] && groups[i].members[0] in trace[0].names
    {
      StageAt(trace, groups, told, i);
      StageFirst(trace[i], trace[i + 1], groups[i], told[i]);
      PassKeeps(trace, groups, told, i + 1, |groups|);
      NamesKept(trace[i + 1], trace[|groups|], MovedIn(groups, told, i + 1, |groups|));
    }
  }

  // A group gives the partners counted the first member's extents and moves no one else.
  lemma StagePlaces(fs: Fs, after: Fs, group: Group, told: Option<Outcome>, n: Name)
    requires Stage(fs, after, group, told) && n in fs.names && Source(group, told, n) in fs.names
    ensures n in after.names && Sound(fs) && Sound(after)
    ensures NodeOf(after, n).storage == NodeOf(fs, Source(group, told, n)).storage
  {
    hide Keeps, Solo;
    var members := group.members;
    if n in MovedBy(group, told) {
      var j :| 1 <= j <= Count(told.value) && j < |members| && members[j] == n;
      assert Shares(after, members[j], members[0]);
    }
  }

  lemma PassPrefix(trace: seq<Fs>, groups: seq<Group>, told: seq<Option<Outcome>>, i: nat)
    requires Pass(trace, groups, told) && i <= |groups|
    ensures Pass(trace[..i + 1], groups[..i], told[..i])
    ensures Rooted(trace[0], groups, told) ==> Rooted(trace[0], groups[..i], told[..i])
  {
    hide Stage, Sound, MovedBy;
    forall k | 0 <= k < i
      ensures Stage(trace[..i + 1][k], trace[..i + 1][k + 1], groups[..i][k], told[..i][k])
    {
      StageAt(trace, groups, told, k);
    }
  }

  // Whatever fails: at the end every name has the extents its origin had at the start.
  lemma {:induction false} PassPlaces(trace: seq<Fs>, groups: seq<Group>, told: seq<Option<Outcome>>)
    requires Pass(trace, groups, told) && Rooted(trace[0], groups, told)
    ensures Placed(trace[0], trace[|groups|], groups, told)
    decreases |groups|
  {
    hide Stage, Sound, NodeOf, MovedBy;
    if groups != [] {
      var n := |groups| - 1;
      var (t, g, o) := (trace[..|groups|], groups[..n], told[..n]);
      PassPrefix(trace, groups, told, n);
      PassPlaces(t, g, o);
      StageAt(trace, groups, told, n);
      PlaceStep(trace[0], trace[n], trace[n + 1], g, o, groups[n], told[n]);
      assert groups == g + [groups[n]] && told == o + [told[n]];
    }
  }

  lemma PlaceStep(fs0: Fs, fs: Fs, after: Fs, groups: seq<Group>, told: seq<Option<Outcome>>, group: Group,
                  o: Option<Outcome>)
    requires Placed(fs0, fs, groups, told) && Stage(fs, after, group, o)
    requires MovedBy(group, o) != {} ==> group.members != [] && group.members[0] in fs0.names
    ensures Placed(fs0, after, groups + [group], told + [o])
  {
    hide GroupProgress, Sound, NodeOf, Origin, PlacedAt, MovedBy;
    forall n | n in fs0.names
      ensures PlacedAt(fs0, after, n, Origin(groups + [group], told + [o], n))
    {
      PlaceOne(fs0, fs, after, groups, told, group, o, n);
    }
  }

  lemma PlaceOne(fs0: Fs, fs: Fs, after: Fs, groups: seq<Group>, told: seq<Option<Outcome>>, group: Group,
                 o: Option<Outcome>, n: Name)
    requires Placed(fs0, fs, groups, told) && Stage(fs, after, group, o) && n in fs0.names
    requires MovedBy(group, o) != {} ==> group.members != [] && group.members[0] in fs0.names
    ensures PlacedAt(fs0, after, n, Origin(groups + [group], told + [o], n))
  {
    hide GroupProgress, Sound, NodeOf, Origin, MovedBy;
    OriginStep(groups, told, group, o, n);
    assert PlacedAt(fs0, fs, n, Origin(groups, told, n));
    assert PlacedAt(fs0, fs, Source(group, o, n), Origin(groups, told, Source(group, o, n)));
    StagePlaces(fs, after, group, o, n);
  }

  // Two names share at the end exactly if their origins shared at the start.
  lemma SharesIffOrigin(fs0: Fs, fs: Fs, groups: seq<Group>, told: seq<Option<Outcome>>, a: Name, b: Name)
    requires Placed(fs0, fs, groups, told) && a in fs0.names && b in fs0.names
    ensures Shares(fs, a, b) <==> Shares(fs0, Origin(groups, told, a), Origin(groups, told, b))
  {
    hide Sound, NodeOf, Origin;
    assert PlacedAt(fs0, fs, a, Origin(groups, told, a));
    assert PlacedAt(fs0, fs, b, Origin(groups, told, b));
  }

  lemma PlacedSound(fs0: Fs, fs: Fs, groups: seq<Group>, told: seq<Option<Outcome>>)
    requires Placed(fs0, fs, groups, told)
    ensures Sound(fs0) && Sound(fs)
  {
    hide Sound, Origin;
  }

  // What the origins must be for the outcome of a group to be true at the end.
  ghost predicate OriginsAgree(fs0: Fs, groups: seq<Group>, told: seq<Option<Outcome>>, i: nat)
    requires Sound(fs0) && i < |groups| == |told| && told[i].Some?
  {
    var members := groups[i].members;
    forall j :: 1 <= j < |members| ==>
      (Shares(fs0, Origin(groups, told, members[j]), Origin(groups, told, members[0])) <==>
       || members[j] in Moved(members, Count(told[i].value))
       || Shares(fs0, Origin(groups[..i], told[..i], members[j]), Origin(groups[..i], told[..i], members[0])))
  }

  // Whatever fails and however groups overlap, this decides whether an outcome is true at the end.
  lemma TrueAtTheEndIff(trace: seq<Fs>, groups: seq<Group>, told: seq<Option<Outcome>>, i: nat)
    requires Pass(trace, groups, told) && Rooted(trace[0], groups, told) && i < |groups| && told[i].Some?
    requires forall n :: n in groups[i].members ==> n in trace[0].names
    ensures Sound(trace[0]) && Sound(trace[i]) && Sound(trace[|groups|])
    ensures Truthful(trace[i], trace[|groups|], groups[i], told[i].value) <==> OriginsAgree(trace[0], groups, told, i)
  {
    hide Sound, Stage, Placed, Origin, Shares, Moved, Rooted;
    var (end, members, fs0) := (|groups|, groups[i].members, trace[0]);
    StageCount(trace, groups, told, i);
    PassPlaces(trace, groups, told);
    PassPrefix(trace, groups, told, i);
    PassPlaces(trace[..i + 1], groups[..i], told[..i]);
    PassKeeps(trace, groups, told, 0, i);
    PlacedSound(fs0, trace[end], groups, told);
    forall j | 1 <= j < |members|
      ensures members[j] in trace[i].names && members[0] in trace[i].names
      ensures Shares(trace[end], members[j], members[0]) <==>
              Shares(fs0, Origin(groups, told, members[j]), Origin(groups, told, members[0]))
      ensures Shares(trace[i], members[j], members[0]) <==>
              Shares(fs0, Origin(groups[..i], told[..i], members[j]), Origin(groups[..i], told[..i], members[0]))
    {
      SharesIffOrigin(fs0, trace[end], groups, told, members[j], members[0]);
      SharesIffOrigin(fs0, trace[i], groups[..i], told[..i], members[j], members[0]);
    }
  }

  lemma StageCount(trace: seq<Fs>, groups: seq<Group>, told: seq<Option<Outcome>>, i: nat)
    requires Pass(trace, groups, told) && i < |groups| && told[i].Some?
    ensures told[i].value.group == groups[i].name && Count(told[i].value) < |groups[i].members|
  {
    hide Sound, GroupProgress;
    StageAt(trace, groups, told, i);
  }

  // ---------- when everything succeeds ----------

  // The name whose extents a name has after the groups, by the group map alone.
  function Root(groups: seq<Group>, n: Name): Name {
    if groups == [] then n
    else
      var (before, last) := (groups[..|groups| - 1], groups[|groups| - 1].members);
      if |last| >= 2 && n in last[1..] then Root(before, last[0]) else Root(before, n)
  }

  ghost predicate AllTold(groups: seq<Group>, told: seq<Option<Outcome>>) {
    && |told| == |groups|
    && forall i :: 0 <= i < |groups| && |groups[i].members| >= 2 ==> told[i].Some? && told[i].value.Shared?
  }

  lemma RootStep(groups: seq<Group>, group: Group, n: Name)
    ensures Root(groups + [group], n)
         == Root(groups, if |group.members| >= 2 && n in group.members[1..] then group.members[0] else n)
  {
    var all := groups + [group];
    assert all[..|all| - 1] == groups && all[|all| - 1] == group;
  }

  lemma MovedAll(members: seq<Name>, n: Name)
    requires |members| >= 2
    ensures n in Moved(members, |members| - 1) <==> n in members[1..]
  {
    if n in members[1..] {
      var j :| 0 <= j < |members[1..]| && members[1..][j] == n;
      assert members[j + 1] == n;
    }
    if n in Moved(members, |members| - 1) {
      var j :| 1 <= j < |members| && members[j] == n;
      assert members[1..][j - 1] == n;
    }
  }

  // When every group shares in full the group map alone decides.
  lemma {:induction false} OriginIsRoot(trace: seq<Fs>, groups: seq<Group>, told: seq<Option<Outcome>>, n: Name)
    requires Pass(trace, groups, told) && AllTold(groups, told)
    ensures Origin(groups, told, n) == Root(groups, n)
    decreases |groups|
  {
    hide GroupProgress, Sound;
    if groups != [] {
      var k := |groups| - 1;
      PassPrefix(trace, groups, told, k);
      StageAt(trace, groups, told, k);
      if |groups[k].members| >= 2 {
        MovedAll(groups[k].members, n);
      }
      OriginIsRoot(trace[..|groups|], groups[..k], told[..k], Source(groups[k], told[k], n));
    }
  }

  // Every name has the extents its root had at the start.
  ghost predicate RootPlaced(fs0: Fs, fs: Fs, groups: seq<Group>) {
    && Sound(fs0) && Sound(fs)
    && forall n {:trigger Root(groups, n)} :: n in fs0.names ==> PlacedAt(fs0, fs, n, Root(groups, n))
  }

  lemma PassRootPlaced(trace: seq<Fs>, groups: seq<Group>, told: seq<Option<Outcome>>)
    requires Pass(trace, groups, told) && AllTold(groups, told) && Rooted(trace[0], groups, told)
    ensures RootPlaced(trace[0], trace[|groups|], groups)
  {
    hide Stage, Sound, NodeOf, Origin, Root, AllTold, PlacedAt, Rooted;
    PassPlaces(trace, groups, told);
    forall n | n in trace[0].names
      ensures PlacedAt(trace[0], trace[|groups|], n, Root(groups, n))
    {
      OriginIsRoot(trace, groups, told, n);
      assert PlacedAt(trace[0], trace[|groups|], n, Origin(groups, told, n));
    }
  }

  lemma SharesIffRoot(fs0: Fs, fs: Fs, groups: seq<Group>, a: Name, b: Name)
    requires RootPlaced(fs0, fs, groups) && a in fs0.names && b in fs0.names
    ensures Shares(fs, a, b) <==> Shares(fs0, Root(groups, a), Root(groups, b))
  {
    hide Sound, NodeOf, Root;
    assert PlacedAt(fs0, fs, a, Root(groups, a));
    assert PlacedAt(fs0, fs, b, Root(groups, b));
  }

  // No two names share extents.
  ghost predicate Unshared(fs: Fs)
    requires Sound(fs)
  {
    forall a, b :: a in fs.names && b in fs.names && NodeOf(fs, a).storage == NodeOf(fs, b).storage ==> a == b
  }

  lemma SharesIffSameRoot(fs0: Fs, fs: Fs, groups: seq<Group>, a: Name, b: Name)
    requires RootPlaced(fs0, fs, groups) && Unshared(fs0) && a in fs0.names && b in fs0.names
    ensures Shares(fs, a, b) <==> Root(groups, a) == Root(groups, b)
  {
    hide Sound, NodeOf, Root, Unshared;
    assert PlacedAt(fs0, fs, a, Root(groups, a));
    assert PlacedAt(fs0, fs, b, Root(groups, b));
    SameStorage(fs0, Root(groups, a), Root(groups, b));
  }

  lemma SameStorage(fs: Fs, a: Name, b: Name)
    requires Sound(fs) && Unshared(fs) && a in fs.names && b in fs.names
    ensures NodeOf(fs, a).storage == NodeOf(fs, b).storage <==> a == b
  {
    hide Sound, NodeOf;
  }

  lemma RootPlacedSound(fs0: Fs, fs: Fs, groups: seq<Group>)
    requires RootPlaced(fs0, fs, groups)
    ensures Sound(fs0) && Sound(fs)
  {
    hide Sound, Root;
  }

  // All of a group's partners share with its first member at the end exactly if their roots did at the start.
  lemma FullGroupIff(fs0: Fs, fs: Fs, groups: seq<Group>, i: nat)
    requires RootPlaced(fs0, fs, groups) && i < |groups|
    requires forall n :: n in groups[i].members ==> n in fs0.names
    ensures (forall j :: 1 <= j < |groups[i].members| ==> Shares(fs, groups[i].members[j], groups[i].members[0]))
       <==> (forall j :: 1 <= j < |groups[i].members| ==>
               Shares(fs0, Root(groups, groups[i].members[j]), Root(groups, groups[i].members[0])))
  {
    hide Root, RootPlaced, Shares, Sound;
    RootPlacedSound(fs0, fs, groups);
    var members := groups[i].members;
    forall j | 1 <= j < |members|
      ensures Shares(fs, members[j], members[0]) <==> Shares(fs0, Root(groups, members[j]), Root(groups, members[0]))
    {
      SharesIffRoot(fs0, fs, groups, members[j], members[0]);
    }
  }

  // ---------- the pass itself ----------

  ghost predicate Ready(fs: Fs, pid: nat, groups: seq<Group>)
    requires Sound(fs)
  {
    forall i :: 0 <= i < |groups| && |groups[i].members| >= 2 ==> AllShareable(fs, pid, groups[i].members)
  }

  lemma PassExtended(trace: seq<Fs>, groups: seq<Group>, told: seq<Option<Outcome>>, after: Fs, group: Group,
                     o: Option<Outcome>)
    requires Pass(trace, groups, told) && Stage(trace[|groups|], after, group, o)
    ensures Pass(trace + [after], groups + [group], told + [o])
  {
    hide Stage, Sound;
    var (t, g, os) := (trace + [after], groups + [group], told + [o]);
    forall i | 0 <= i < |g|
      ensures Stage(t[i], t[i + 1], g[i], os[i])
    {
      if i < |groups| {
        StageAt(trace, groups, told, i);
      }
    }
  }

  lemma ReportsStep(told: seq<Option<Outcome>>, o: Option<Outcome>)
    ensures Reports(told + [o]) == Reports(told) + if o.Some? then [o.value] else []
  {
    var all := told + [o];
    assert all[..|all| - 1] == told && all[|all| - 1] == o;
  }

  // Every outcome is true at the end if no later group re-shares a member of its group.
  ghost predicate Reliable(trace: seq<Fs>, groups: seq<Group>, told: seq<Option<Outcome>>) {
    && Pass(trace, groups, told)
    && forall i :: 0 <= i < |groups| && told[i].Some? && LeftAlone(groups, i) ==>
      && Sound(trace[i]) && Sound(trace[|groups|])
      && Truthful(trace[i], trace[|groups|], groups[i], told[i].value)
  }

  lemma PassReliable(trace: seq<Fs>, groups: seq<Group>, told: seq<Option<Outcome>>)
    requires Pass(trace, groups, told)
    ensures Reliable(trace, groups, told)
  {
    hide Pass, Sound, Truthful, LeftAlone;
    assert |trace| == |groups| + 1 && |told| == |groups| by {
      PassLengths(trace, groups, told);
    }
    forall i | 0 <= i < |groups| && told[i].Some? && LeftAlone(groups, i)
      ensures Sound(trace[i]) && Sound(trace[|groups|])
      ensures Truthful(trace[i], trace[|groups|], groups[i], told[i].value)
    {
      TrueAtTheEnd(trace, groups, told, i);
    }
  }

  lemma PassLengths(trace: seq<Fs>, groups: seq<Group>, told: seq<Option<Outcome>>)
    requires Pass(trace, groups, told)
    ensures |trace| == |groups| + 1 && |told| == |groups|
  {
    hide Stage, Sound;
  }

  // Every reason told comes from a call of its group or from the state the group had come to.
  ghost predicate AllExplained(failure: nat -> Option<IoError>, pid: nat, trace: seq<Fs>, groups: seq<Group>,
                               told: seq<Option<Outcome>>, clocks: seq<nat>)
  {
    && |trace| == |clocks| == |groups| + 1 && |told| == |groups|
    && forall i :: 0 <= i < |groups| && told[i].Some? && told[i].value.NotShared? ==>
      GroupExplained(failure, trace[i], pid, groups[i].members, told[i].value.shared, clocks[i], clocks[i + 1],
                     told[i].value.reason)
  }

  lemma ExplainedMore(failure: nat -> Option<IoError>, pid: nat, trace: seq<Fs>, groups: seq<Group>,
                      told: seq<Option<Outcome>>, clocks: seq<nat>, after: Fs, group: Group, o: Option<Outcome>,
                      clock: nat)
    requires AllExplained(failure, pid, trace, groups, told, clocks)
    requires o.Some? && o.value.NotShared? ==>
               GroupExplained(failure, trace[|groups|], pid, group.members, o.value.shared, clocks[|groups|], clock,
                              o.value.reason)
    ensures AllExplained(failure, pid, trace + [after], groups + [group], told + [o], clocks + [clock])
  {
    hide GroupExplained;
    var (t, g, os, cs) := (trace + [after], groups + [group], told + [o], clocks + [clock]);
    forall i | 0 <= i < |g| && os[i].Some? && os[i].value.NotShared?
      ensures GroupExplained(failure, t[i], pid, g[i].members, os[i].value.shared, cs[i], cs[i + 1], os[i].value.reason)
    {
      if i < |groups| {
        assert t[i] == trace[i] && g[i] == groups[i] && os[i] == told[i];
        assert cs[i] == clocks[i] && cs[i + 1] == clocks[i + 1];
      }
    }
  }

  // Whatever fails, every name keeps its bytes and metadata, and only the partners counted are moved.
  method RestoreCloneGroups(k: Kernel, groups: seq<Group>)
    returns (outcomes: seq<Outcome>, ghost trace: seq<Fs>, ghost told: seq<Option<Outcome>>, ghost clocks: seq<nat>)
    requires Sound(k.fs)
    modifies k
    ensures Pass(trace, groups, told) && trace[0] == old(k.fs) && trace[|groups|] == k.fs && outcomes == Reports(told)
    ensures Sound(k.fs) && Keeps(old(k.fs), k.fs)
    ensures Extends(old(k.fs), k.fs, MovedIn(groups, told, 0, |groups|))
    ensures Reliable(trace, groups, told)
    ensures AllExplained(k.failure, k.pid, trace, groups, told, clocks)
    ensures clocks[0] == old(k.clock) && clocks[|groups|] == k.clock
    ensures k.stuck >= old(k.stuck) && (k.Quiet() ==> k.stuck == old(k.stuck))
    ensures k.stuck == old(k.stuck) ==> k.fs.names.Keys == old(k.fs).names.Keys
    ensures FirstsExist(old(k.fs), groups) || k.stuck == old(k.stuck) ==>
              Rooted(old(k.fs), groups, told) && Placed(old(k.fs), k.fs, groups, told)
    ensures k.Quiet() && Ready(old(k.fs), k.pid, groups) ==>
              AllTold(groups, told) && RootPlaced(old(k.fs), k.fs, groups)
  {
    hide GroupProgress, Keeps, Extends, Sound, AllShareable, Kernel.Quiet, Placed, RootPlaced, MovedIn, Pass, Reliable,
      Reports, Ready, Rooted, FirstsExist, AllExplained, GroupExplained;
    ghost var fs0 := k.fs;
    outcomes, trace, told, clocks := [], [fs0], [], [k.clock];
    PassStarts(fs0);
    NoneExplained(k, fs0);
    for i := 0 to |groups|
      invariant k.stuck >= old(k.stuck) && Sound(k.fs)
      invariant |trace| == i + 1 && |told| == i && trace[0] == fs0 && trace[i] == k.fs
      invariant Pass(trace, groups[..i], told) && outcomes == Reports(told)
      invariant |clocks| == i + 1 && clocks[0] == old(k.clock) && clocks[i] == k.clock
      invariant AllExplained(k.failure, k.pid, trace, groups[..i], told, clocks)
      invariant k.stuck == old(k.stuck) ==> k.fs.names.Keys == fs0.names.Keys
      invariant k.Quiet() ==> k.stuck == old(k.stuck)
      invariant k.Quiet() && Ready(fs0, k.pid, groups) ==> AllTold(groups[..i], told)
    {
      var group := groups[i];
      assert groups[..i + 1] == groups[..i] + [group];
      ghost var fs := k.fs;
      var outcome: Option<Outcome> := None;
      if |group.members| >= 2 {
        if k.Quiet() && Ready(fs0, k.pid, groups) {
          PassKeeps(trace, groups[..i], told, 0, i);
          ReadyAt(fs0, fs, k.pid, groups, i);
        }
        var shared, failure := RestoreGroup(k, group.members);
        outcome := Some(if failure.None? then Shared(group.name, shared + 1)
                        else NotShared(group.name, shared, failure.value));
        ProgressSound(fs, k.fs, group.members, shared);
        outcomes := outcomes + [outcome.value];
      }
      PassExtended(trace, groups[..i], told, k.fs, group, outcome);
      ReportsStep(told, outcome);
      ExplainedMore(k.failure, k.pid, trace, groups[..i], told, clocks, k.fs, group, outcome, k.clock);
      trace, told, clocks := trace + [k.fs], told + [outcome], clocks + [k.clock];
    }
    assert groups[..|groups|] == groups;
    PassKeeps(trace, groups, told, 0, |groups|);
    PassReliable(trace, groups, told);
    if FirstsExist(fs0, groups) || k.stuck == old(k.stuck) {
      PassRooted(trace, groups, told);
      PassPlaces(trace, groups, told);
    }
    if k.Quiet() && Ready(fs0, k.pid, groups) {
      PassRootPlaced(trace, groups, told);
    }
  }

  lemma NoneExplained(k: Kernel, fs: Fs)
    ensures AllExplained(k.failure, k.pid, [fs], [], [], [k.clock])
  {
  }

  lemma PassStarts(fs: Fs)
    requires Sound(fs)
    ensures Pass([fs], [], []) && Reports([]) == []
  {
  }

  lemma ReadyAt(fs0: Fs, fs: Fs, pid: nat, groups: seq<Group>, i: nat)
    requires Sound(fs0) && Sound(fs) && Keeps(fs0, fs) && fs.names.Keys == fs0.names.Keys
    requires Ready(fs0, pid, groups) && i < |groups| && |groups[i].members| >= 2
    ensures AllShareable(fs, pid, groups[i].members)
  {
    hide Sound, Keeps, AllShareable;
    AllShareableKept(fs0, fs, pid, groups[i].members);
  }

  lemma ProgressSound(fs0: Fs, fs: Fs, members: seq<Name>, shared: nat)
    requires GroupProgress(fs0, fs, members, shared)
    ensures Sound(fs0) && Sound(fs)
  {
    hide Sound, Keeps, Extends, Shares, Moved, Solo, NodeOf;
  }

  // ---------- groups that overlap ----------

  function Pairs(a: Name, b: Name, c: Name, d: Name): seq<Group> {
    [Group([97], [a, b]), Group([98], [c, d])]
  }

  function PairRoot(a: Name, b: Name, c: Name, d: Name, n: Name): Name {
    var m := if n == d then c else n;
    if m == b then a else m
  }

  lemma RootOfNone(n: Name)
    ensures Root([], n) == n
  {
  }

  lemma RootOfPair(groups: seq<Group>, name: Text, a: Name, b: Name, n: Name)
    ensures Root(groups + [Group(name, [a, b])], n) == Root(groups, if n == b then a else n)
  {
    hide Root;
    RootStep(groups, Group(name, [a, b]), n);
    assert [a, b][1..] == [b];
  }

  lemma RootOfPairs(a: Name, b: Name, c: Name, d: Name, n: Name)
    ensures Root(Pairs(a, b, c, d), n) == PairRoot(a, b, c, d, n)
  {
    hide Root;
    var first := Group([97], [a, b]);
    var m := if n == d then c else n;
    assert Pairs(a, b, c, d) == [first] + [Group([98], [c, d])] && [first] == [] + [first];
    RootOfPair([first], [98], c, d, n);
    RootOfPair([], [97], a, b, m);
    RootOfNone(if m == b then a else m);
  }

  // One partner in two groups: both outcomes claim it, and only the later one is true at the end.
  // A partner of a later group that is the first member of an earlier one breaks the earlier outcome too,
  // and one first member for two groups does no harm.
  lemma OverlapVerdicts(fs0: Fs, fs: Fs, x: Name, y: Name, z: Name)
    requires Sound(fs0) && Unshared(fs0) && x in fs0.names && y in fs0.names && z in fs0.names
    requires x != y && y != z && x != z
    ensures RootPlaced(fs0, fs, Pairs(x, y, z, y)) ==> Sound(fs) && Shares(fs, y, z) && !Shares(fs, y, x)
    ensures RootPlaced(fs0, fs, Pairs(x, y, z, x)) ==> Sound(fs) && Shares(fs, x, z) && !Shares(fs, y, x)
    ensures RootPlaced(fs0, fs, Pairs(x, y, x, z)) ==> Sound(fs) && Shares(fs, z, x) && Shares(fs, y, x)
  {
    hide Sound, Unshared, Root, RootPlaced, Shares, Pairs;
    PairsVerdict(fs0, fs, x, y, z, y, y, z);
    PairsVerdict(fs0, fs, x, y, z, y, y, x);
    PairsVerdict(fs0, fs, x, y, z, x, x, z);
    PairsVerdict(fs0, fs, x, y, z, x, y, x);
    PairsVerdict(fs0, fs, x, y, x, z, z, x);
    PairsVerdict(fs0, fs, x, y, x, z, y, x);
  }

  lemma PairsVerdict(fs0: Fs, fs: Fs, a: Name, b: Name, c: Name, d: Name, m: Name, n: Name)
    requires Sound(fs0) && Unshared(fs0) && m in fs0.names && n in fs0.names
    ensures RootPlaced(fs0, fs, Pairs(a, b, c, d)) ==>
              Sound(fs) && (Shares(fs, m, n) <==> PairRoot(a, b, c, d, m) == PairRoot(a, b, c, d, n))
  {
    hide Sound, Unshared, Root, RootPlaced, Shares, Pairs;
    if RootPlaced(fs0, fs, Pairs(a, b, c, d)) {
      RootPlacedSound(fs0, fs, Pairs(a, b, c, d));
      SharesIffSameRoot(fs0, fs, Pairs(a, b, c, d), m, n);
      RootOfPairs(a, b, c, d, m);
      RootOfPairs(a, b, c, d, n);
    }
  }

  // Three files of the same byte, x, y and z, in one directory.
  const X := Name(0, [120])
  const Y := Name(0, [121])
  const Z := Name(0, [122])

  const THREE := Fs(map[X := 0, Y := 1, Z := 2], map[0 := Node(0, []), 1 := Node(1, []), 2 := Node(2, [])],
                    map[0 := [7], 1 := [7], 2 := [7]], 3)

  function Number(n: Name): nat {
    if n == X then 0 else if n == Y then 1 else 2
  }

  lemma ThreeNodes(n: Name)
    requires n in THREE.names
    ensures n in {X, Y, Z} && Number(n) in THREE.nodes
    ensures THREE.names[n] == Number(n) && THREE.nodes[Number(n)] == Node(Number(n), [])
  {
  }

  lemma ThreeSound()
    ensures Sound(THREE)
  {
    forall n | n in THREE.names
      ensures THREE.names[n] in THREE.nodes
    {
      ThreeNodes(n);
    }
    assert forall i :: i in THREE.nodes ==> i in {0, 1, 2} && THREE.nodes[i].storage == i && i in THREE.blocks;
  }

  lemma ThreeUnshared()
    ensures Sound(THREE) && Unshared(THREE)
  {
    hide Sound;
    ThreeSound();
    forall a, b | a in THREE.names && b in THREE.names && NodeOf(THREE, a).storage == NodeOf(THREE, b).storage
      ensures a == b
    {
      ThreeNodes(a);
      ThreeNodes(b);
    }
  }

  // A staging name is longer than one character.
  lemma ShortNames(fs: Fs, pid: nat, destination: Name)
    requires forall n :: n in fs.names ==> |n.leaf| == 1
    ensures HasFreeName(fs, pid, destination)
  {
    hide Print;
    var staging := StagingName(pid, destination, 0);
    assert |staging.leaf| > 1;
    assert staging !in fs.names;
  }

  lemma ThreeReady(pid: nat, source: Name, destination: Name)
    requires source in THREE.names && destination in THREE.names
    ensures Sound(THREE) && Shareable(THREE, pid, source, destination)
  {
    hide HasFreeName;
    ThreeSound();
    ShortNames(THREE, pid, destination);
  }

  lemma OverlapReady(pid: nat)
    ensures Sound(THREE) && Ready(THREE, pid, Pairs(X, Y, Z, Y))
  {
    hide Sound, Shareable;
    ThreeReady(pid, X, Y);
    ThreeReady(pid, Z, Y);
  }

  // The groups [x, y] and [z, y], with no call failing: two outcomes of two members each, and y shares with z alone.
  method OverlapExample() returns (outcomes: seq<Outcome>, k: Kernel)
    ensures outcomes == [Shared([97], 2), Shared([98], 2)]
    ensures Sound(k.fs) && Shares(k.fs, Y, Z) && !Shares(k.fs, Y, X)
  {
    hide Sound, Unshared, RootPlaced, Shares, Reports, Pass, Reliable, Ready, Keeps, Extends, MovedIn, AllExplained;
    k := new Kernel(1, _ => None, _ => 0, _ => [], THREE);
    ThreeUnshared();
    OverlapReady(1);
    var groups := Pairs(X, Y, Z, Y);
    ghost var trace, told, clocks;
    outcomes, trace, told, clocks := RestoreCloneGroups(k, groups);
    OverlapVerdicts(THREE, k.fs, X, Y, Z);
    TwoReports(trace, groups, told);
  }

  lemma TwoReports(trace: seq<Fs>, groups: seq<Group>, told: seq<Option<Outcome>>)
    requires Pass(trace, groups, told) && AllTold(groups, told) && |groups| == 2
    requires |groups[0].members| >= 2 && |groups[1].members| >= 2
    ensures Reports(told) == [Shared(groups[0].name, |groups[0].members|), Shared(groups[1].name, |groups[1].members|)]
  {
    hide GroupProgress, Sound;
    StageAt(trace, groups, told, 0);
    StageAt(trace, groups, told, 1);
    ReportsStep([], told[0]);
    ReportsStep([told[0]], told[1]);
    assert told == [told[0]] + [told[1]] && [] + [told[0]] == [told[0]];
  }

  // x and y are one file, z another of the same byte.
  const LINKS := Fs(map[X := 0, Y := 0, Z := 1], map[0 := Node(0, []), 1 := Node(1, [])], map[0 := [7], 1 := [7]], 2)

  lemma LinksReady(pid: nat)
    ensures Sound(LINKS) && Linked(LINKS, X, Y) && Ready(LINKS, pid, [Group([97], [Z, Y])])
  {
    hide HasFreeName;
    assert forall n :: n in LINKS.names ==> n in {X, Y, Z};
    assert forall i :: i in LINKS.nodes ==> i in {0, 1} && LINKS.nodes[i].storage == i && i in LINKS.blocks;
    ShortNames(LINKS, pid, Y);
  }

  // The group [z, y], with no call failing: y is re-shared, and x and y are two files from then on.
  method LinksExample() returns (k: Kernel)
    ensures Linked(LINKS, X, Y) && !Linked(k.fs, X, Y)
    ensures Sound(k.fs) && Shares(k.fs, Y, Z)
  {
    hide Sound, Placed, RootPlaced, Shares, Reports, Pass, Reliable, Ready, Keeps, Extends, MovedIn, Linked, AllTold,
      AllExplained;
    k := new Kernel(1, _ => None, _ => 0, _ => [], LINKS);
    LinksReady(1);
    var groups := [Group([97], [Z, Y])];
    ghost var trace, told, clocks;
    var outcomes;
    outcomes, trace, told, clocks := RestoreCloneGroups(k, groups);
    LinksMoved(trace, groups, told);
    LinksSplit(trace, groups, told, X, Y);
  }

  lemma LinksMoved(trace: seq<Fs>, groups: seq<Group>, told: seq<Option<Outcome>>)
    requires groups == [Group([97], [Z, Y])] && Pass(trace, groups, told) && AllTold(groups, told)
    ensures Y in MovedIn(groups, told, 0, 1)
    ensures Sound(trace[1]) && Shares(trace[1], Y, Z)
  {
    hide Sound, Keeps, Extends, Shares;
    StageAt(trace, groups, told, 0);
    assert groups[0].members[1] == Y;
  }
}
