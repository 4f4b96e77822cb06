/** Agreement between the profiles of apps that share a system writer, from
    src/config/consensus.rs. */
module Consensus {
  import opened Paths
  import opened Sorting
  import opened MappingChain

  datatype UserProfile = UserProfile(
    isEnabled: bool, isMappingModeOnly: bool,
    allowedRealPaths: seq<string>, excludedRealPaths: seq<string>,
    sandboxedPaths: seq<string>, readOnlyPaths: seq<string>,
    pathMappings: seq<PathMapping>)

  datatype AppProfile = AppProfile(userProfiles: map<int, UserProfile>)

  predicate EqIgnoreCase(left: string, right: string) {
    |left| == |right| && forall i :: 0 <= i < |left| ==> FoldChar(left[i]) == FoldChar(right[i])
  }

  lemma SameKey(left: string, right: string)
    ensures EqIgnoreCase(left, right) <==> MatchKey(left) == MatchKey(right)
  {
    if MatchKey(left) == MatchKey(right) {
      assert |left| == |MatchKey(left)| && |right| == |MatchKey(right)|;
      assert forall i :: 0 <= i < |left| ==> MatchKey(left)[i] == FoldChar(left[i]);
      assert forall i :: 0 <= i < |right| ==> MatchKey(right)[i] == FoldChar(right[i]);
    }
  }

  // ----- path lists -----

  function PathOrder(): Compare<string> {
    ByKey(MatchKey, CompareText, CompareText)
  }

  /** `path_lists_equal_ignore_case` */
  predicate PathListsEqual(left: seq<string>, right: seq<string>) {
    if |left| != |right| then false
    else
      var l, r := Sort(PathOrder(), left), Sort(PathOrder(), right);
      forall i :: 0 <= i < |l| && i < |r| ==> EqIgnoreCase(l[i], r[i])
  }

  /** Comparing sorted lists compares the bags of lower-cased paths. */
  lemma PathListsEqualIff(left: seq<string>, right: seq<string>)
    ensures PathListsEqual(left, right) <==> multiset(Mapped(MatchKey, left)) == multiset(Mapped(MatchKey, right))
  {
    var l, r := Sort(PathOrder(), left), Sort(PathOrder(), right);
    TextOrder();
    SortThenZip(MatchKey, CompareText, CompareText, left, right);
    SortPermutes(PathOrder(), left);
    SortPermutes(PathOrder(), right);
    assert |multiset(Mapped(MatchKey, left))| == |left| && |multiset(Mapped(MatchKey, right))| == |right|;
    forall i | 0 <= i < |l| && i < |r|
      ensures EqIgnoreCase(l[i], r[i]) <==> MatchKey(l[i]) == MatchKey(r[i])
    {
      SameKey(l[i], r[i]);
    }
    ZipKeys(MatchKey, l, r);
  }

  lemma ZipKeys<T, K>(key: T -> K, l: seq<T>, r: seq<T>)
    ensures Mapped(key, l) == Mapped(key, r) <==>
            |l| == |r| && forall i :: 0 <= i < |l| && i < |r| ==> key(l[i]) == key(r[i])
  {
    if Mapped(key, l) == Mapped(key, r) {
      assert |l| == |Mapped(key, l)| && |r| == |Mapped(key, r)|;
      forall i | 0 <= i < |l|
        ensures key(l[i]) == key(r[i])
      {
        assert Mapped(key, l)[i] == key(l[i]) && Mapped(key, r)[i] == key(r[i]);
      }
    }
  }

  // ----- mappings -----

  function PairKey(m: PathMapping): (string, string) {
    (MatchKey(m.request), MatchKey(m.final))
  }

  function ComparePairs(a: (string, string), b: (string, string)): Ordering {
    ThenWith(CompareText(a.0, b.0), CompareText(a.1, b.1))
  }

  function CompareSpelling(a: PathMapping, b: PathMapping): Ordering {
    ThenWith(CompareText(a.request, b.request), CompareText(a.final, b.final))
  }

  function MappingOrder(): Compare<PathMapping> {
    ByKey(PairKey, ComparePairs, CompareSpelling)
  }

  predicate Complete(m: PathMapping) {
    m.request != "" && m.final != ""
  }

  function CompleteMappings(mappings: seq<PathMapping>): seq<PathMapping> {
    if |mappings| == 0 then []
    else (if Complete(mappings[0]) then [mappings[0]] else []) + CompleteMappings(mappings[1..])
  }

  /** `normalize_mappings` */
  function NormalizeMappings(mappings: seq<PathMapping>): seq<PathMapping> {
    Sort(MappingOrder(), CompleteMappings(mappings))
  }

  predicate MappingsEqual(left: seq<PathMapping>, right: seq<PathMapping>) {
    var l, r := NormalizeMappings(left), NormalizeMappings(right);
    if |l| != |r| then false
    else forall i :: 0 <= i < |l| && i < |r| ==>
        EqIgnoreCase(l[i].request, r[i].request) && EqIgnoreCase(l[i].final, r[i].final)
  }

  lemma LawfulPairs()
    ensures Lawful(ComparePairs) && Exact(ComparePairs)
  {
    TextOrder();
    forall a, b, c | ComparePairs(a, b) != Greater && ComparePairs(b, c) != Greater
      ensures ComparePairs(a, c) != Greater
    {
      assert CompareText(a.0, c.0) != Greater;
      if CompareText(a.0, c.0) == Equal {
        LessThenAtMost(CompareText, a.0, b.0, c.0);
      }
    }
  }

  lemma LawfulSpelling()
    ensures Lawful(CompareSpelling)
  {
    TextOrder();
    forall a, b, c | CompareSpelling(a, b) != Greater && CompareSpelling(b, c) != Greater
      ensures CompareSpelling(a, c) != Greater
    {
      assert CompareText(a.request, c.request) != Greater;
      if CompareText(a.request, c.request) == Equal {
        LessThenAtMost(CompareText, a.request, b.request, c.request);
      }
    }
  }

  /** Comparing normalised mapping lists compares the bags of lower-cased pairs with both sides
      present. */
  lemma MappingsEqualIff(left: seq<PathMapping>, right: seq<PathMapping>)
    ensures MappingsEqual(left, right) <==>
            multiset(Mapped(PairKey, CompleteMappings(left))) == multiset(Mapped(PairKey, CompleteMappings(right)))
  {
    var l, r := NormalizeMappings(left), NormalizeMappings(right);
    LawfulPairs();
    LawfulSpelling();
    SortThenZip(PairKey, ComparePairs, CompareSpelling, CompleteMappings(left), CompleteMappings(right));
    forall i | 0 <= i < |l| && i < |r|
      ensures EqIgnoreCase(l[i].request, r[i].request) && EqIgnoreCase(l[i].final, r[i].final)
              <==> PairKey(l[i]) == PairKey(r[i])
    {
      SameKey(l[i].request, r[i].request);
      SameKey(l[i].final, r[i].final);
    }
    ZipKeys(PairKey, l, r);
  }

  /** Of the mappings those with both sides present take part, each as often as it is listed. */
  lemma {:induction false} CompleteMappingsAre(mappings: seq<PathMapping>, m: PathMapping)
    ensures multiset(CompleteMappings(mappings))[m] ==
            if |m.request| > 0 && |m.final| > 0 then multiset(mappings)[m] else 0
  {
    if |mappings| > 0 {
      CompleteMappingsAre(mappings[1..], m);
      assert mappings == [mappings[0]] + mappings[1..];
      assert multiset(mappings) == multiset([mappings[0]]) + multiset(mappings[1..]);
    }
  }

  // ----- profiles -----

  /** `is_user_profile_equivalent` */
  predicate IsUserProfileEquivalent(left: UserProfile, right: UserProfile) {
    && left.isEnabled == right.isEnabled
    && left.isMappingModeOnly == right.isMappingModeOnly
    && PathListsEqual(left.allowedRealPaths, right.allowedRealPaths)
    && PathListsEqual(left.excludedRealPaths, right.excludedRealPaths)
    && PathListsEqual(left.sandboxedPaths, right.sandboxedPaths)
    && PathListsEqual(left.readOnlyPaths, right.readOnlyPaths)
    && MappingsEqual(left.pathMappings, right.pathMappings)
  }

  /** What a profile says, whatever the order and spelling of its lists. */
  datatype Meaning = Meaning(
    isEnabled: bool, isMappingModeOnly: bool,
    allowed: multiset<string>, excluded: multiset<string>, sandboxed: multiset<string>, readOnly: multiset<string>,
    mappings: multiset<(string, string)>)

  function Bag(paths: seq<string>): multiset<string> {
    multiset(Mapped(MatchKey, paths))
  }

  function MeaningOf(p: UserProfile): Meaning {
    Meaning(p.isEnabled, p.isMappingModeOnly, Bag(p.allowedRealPaths), Bag(p.excludedRealPaths),
            Bag(p.sandboxedPaths), Bag(p.readOnlyPaths), multiset(Mapped(PairKey, CompleteMappings(p.pathMappings))))
  }

  /** Profiles are equivalent exactly when they mean the same; so this is an equivalence relation. */
  lemma EquivalentIffSameMeaning(left: UserProfile, right: UserProfile)
    ensures IsUserProfileEquivalent(left, right) <==> MeaningOf(left) == MeaningOf(right)
  {
    PathListsEqualIff(left.allowedRealPaths, right.allowedRealPaths);
    PathListsEqualIff(left.excludedRealPaths, right.excludedRealPaths);
    PathListsEqualIff(left.sandboxedPaths, right.sandboxedPaths);
    PathListsEqualIff(left.readOnlyPaths, right.readOnlyPaths);
    MappingsEqualIff(left.pathMappings, right.pathMappings);
  }

  lemma EquivalenceRelation(a: UserProfile, b: UserProfile, c: UserProfile)
    ensures IsUserProfileEquivalent(a, a)
    ensures IsUserProfileEquivalent(a, b) == IsUserProfileEquivalent(b, a)
    ensures IsUserProfileEquivalent(a, b) && IsUserProfileEquivalent(b, c) ==> IsUserProfileEquivalent(a, c)
  {
    EquivalentIffSameMeaning(a, a);
    EquivalentIffSameMeaning(a, b);
    EquivalentIffSameMeaning(b, a);
    EquivalentIffSameMeaning(b, c);
    EquivalentIffSameMeaning(a, c);
  }

  // ----- shared groups -----

  predicate Configured(apps: map<string, AppProfile>, member: string, userId: int) {
    member in apps && userId in apps[member].userProfiles
  }

  function ProfileOf(apps: map<string, AppProfile>, member: string, userId: int): UserProfile
    requires Configured(apps, member, userId)
  {
    apps[member].userProfiles[userId]
  }

  /** Every member is configured for the user, and all their profiles mean the same. The order of
      the members plays no part. */
  ghost predicate Unanimous(apps: map<string, AppProfile>, members: set<string>, userId: int) {
    && (forall m <- members :: Configured(apps, m, userId))
    && (forall m <- members, m' <- members ::
          MeaningOf(ProfileOf(apps, m, userId)) == MeaningOf(ProfileOf(apps, m', userId)))
  }

  ghost predicate Collected(apps: map<string, AppProfile>, members: seq<string>, userId: int, active: seq<UserProfile>) {
    && |active| == |members|
    && forall i :: 0 <= i < |members| ==>
         Configured(apps, members[i], userId) && active[i] == ProfileOf(apps, members[i], userId)
  }

  ghost predicate AgreesWithFirst(active: seq<UserProfile>, n: nat)
    requires n < |active|
  {
    IsUserProfileEquivalent(active[0], active[n])
  }

  /** Comparing with the first profile alone decides for every pair. */
  lemma FirstDecides(apps: map<string, AppProfile>, members: seq<string>, userId: int, active: seq<UserProfile>)
    requires Collected(apps, members, userId, active) && |members| > 0
    ensures Unanimous(apps, (set m <- members), userId) <==> forall n :: 0 <= n < |active| ==> AgreesWithFirst(active, n)
  {
    forall n | 0 <= n < |active|
      ensures AgreesWithFirst(active, n) <==> MeaningOf(active[0]) == MeaningOf(active[n])
    {
      EquivalentIffSameMeaning(active[0], active[n]);
    }
    MembersAre(members);
  }

  lemma MembersAre(members: seq<string>)
    ensures forall n :: 0 <= n < |members| ==> members[n] in (set m <- members)
  {
  }

  /** `is_shared_group_consistent`, the group's members given by the policy table. */
  method IsSharedGroupConsistent(apps: map<string, AppProfile>, members: seq<string>, userId: int)
    returns (ok: bool)
    ensures ok <==> Unanimous(apps, (set m <- members), userId)
  {
    if |members| == 0 {
      return true;
    }
    var found, active := CollectProfiles(apps, members, userId);
    if !found {
      return false;
    }
    FirstDecides(apps, members, userId, active);
    ok := AllAgreeWithFirst(active);
  }

  /** The second loop: every further profile against the first. */
  method AllAgreeWithFirst(active: seq<UserProfile>) returns (ok: bool)
    requires |active| > 0
    ensures ok <==> forall n :: 0 <= n < |active| ==> AgreesWithFirst(active, n)
  {
    EquivalenceRelation(active[0], active[0], active[0]);
    for n := 1 to |active|
      invariant forall i :: 0 <= i < n ==> AgreesWithFirst(active, i)
    {
      assert AgreesWithFirst(active, n) == IsUserProfileEquivalent(active[0], active[n]);
      if !IsUserProfileEquivalent(active[0], active[n]) {
        return false;
      }
    }
    return true;
  }

  /** The first loop: the members' profiles, unless one of them is not configured. */
  method CollectProfiles(apps: map<string, AppProfile>, members: seq<string>, userId: int)
    returns (found: bool, active: seq<UserProfile>)
    ensures found ==> Collected(apps, members, userId, active)
    ensures !found ==> exists m <- members :: !Configured(apps, m, userId)
  {
    active := [];
    for n := 0 to |members|
      invariant Collected(apps, members[..n], userId, active)
    {
      if !Configured(apps, members[n], userId) {
        return false, active;
      }
      active := active + [ProfileOf(apps, members[n], userId)];
    }
    assert members[..|members|] == members;
    return true, active;
  }
}
