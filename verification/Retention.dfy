/** Deleting old versions: the nested loops of the admin service and what they leave. */
module Retention {
  import opened Prelude
  import opened Disk
  import opened Storage

  /** A delete of one domain (`Some`) or of every host domain (`None`). */
  predicate Targeted(domain: Option<string>, slot: Slot) {
    if domain.Some? then slot.domain == domain.value else IsHost(slot.domain)
  }

  /** What versions are kept relative to: the served one, or else the greatest. */
  ghost function Base(s: State, domain: string): (base: U32)
    requires domain in s.meta || VersionsOf(s.disk, domain) != {}
    ensures domain in s.meta ==> base == s.meta[domain]
    ensures domain !in s.meta ==> IsMax(base, VersionsOf(s.disk, domain))
  {
    if domain in s.meta then s.meta[domain] else Max(VersionsOf(s.disk, domain))
  }

  ghost predicate Expired(s: State, slot: Slot, reserve: Option<U32>)
    requires slot in s.disk
  {
    assert slot.version in VersionsOf(s.disk, slot.domain);
    if reserve.Some? then slot.version < WrappingSub32(Base(s, slot.domain), reserve.value)
    else slot.version != (if slot.domain in s.meta then s.meta[slot.domain] else U32_MAX)
  }

  /** The versions a delete removes. */
  ghost function Doomed(s: State, domain: Option<string>, reserve: Option<U32>): set<Slot> {
    set slot | slot in s.disk && Targeted(domain, slot) && Expired(s, slot, reserve)
  }

  ghost function DeleteStep(s: State, domain: Option<string>, reserve: Option<U32>): State {
    s.(disk := s.disk - Doomed(s, domain, reserve))
  }

  /** The reserve does not exceed the version any targeted domain serves. */
  ghost predicate ReserveFits(s: State, domain: Option<string>, reserve: Option<U32>) {
    reserve.Some? ==>
      forall slot :: slot in s.disk && Targeted(domain, slot) && Serves(s, slot) ==> reserve.value <= slot.version
  }

  // The admin service

  /** `info.current_version.or(max)`. */
  ghost function BaseOf(info: DomainInfo): U32
    requires info.current.Some? || info.versions != {}
  {
    if info.current.Some? then info.current.value else Max(info.versions)
  }

  /** The versions of one domain that the first half of the loop body selects. */
  method SelectVersions(info: DomainInfo, reserve: Option<U32>) returns (selected: seq<U32>)
    ensures reserve.Some? && info.current.None? && info.versions == {} ==> selected == []
    ensures forall v :: v in selected <==>
              && v in info.versions
              && if reserve.Some? then
                   v < WrappingSub32(BaseOf(info), reserve.value)
                 else v != (if info.current.Some? then info.current.value else U32_MAX)
  {
    var order := Listing(info.versions);
    var threshold: U32;
    if reserve.Some? {
      var base := info.current;
      if base.None? {
        base := MaxVersion(info.versions);
      }
      if base.None? {
        return [];
      }
      assert info.current.None? ==> base.value == Max(info.versions);
      threshold := WrappingSub32(base.value, reserve.value);
    } else {
      threshold := if info.current.Some? then info.current.value else U32_MAX;
    }
    selected := [];
    var i := 0;
    while i < |order|
      invariant 0 <= i <= |order|
      invariant forall v :: v in selected <==>
                  v in order[..i] && if reserve.Some? then v < threshold else v != threshold
    {
      assert order[..i + 1] == order[..i] + [order[i]];
      if if reserve.Some? then order[i] < threshold else order[i] != threshold {
        selected := selected + [order[i]];
      }
      i := i + 1;
    }
    assert order[..i] == order;
  }

  ghost predicate Covers(infos: seq<DomainInfo>, domain: string) {
    exists i :: 0 <= i < |infos| && infos[i].domain == domain
  }

  ghost predicate Describes(s: State, info: DomainInfo) {
    && info.current == (if info.domain in s.meta then Some(s.meta[info.domain]) else None)
    && info.versions == VersionsOf(s.disk, info.domain)
  }

  /** `get_domain_info`: every host domain with its versions, read before anything is deleted. */
  method GetDomainInfo(storage: DomainStorage) returns (infos: seq<DomainInfo>)
    ensures forall i :: 0 <= i < |infos| ==> Describes(storage.View(), infos[i])
    ensures forall i, j :: 0 <= i < j < |infos| ==> infos[i].domain != infos[j].domain
    ensures forall i :: 0 <= i < |infos| ==> IsHost(infos[i].domain)
    ensures forall slot :: slot in storage.disk && IsHost(slot.domain) ==> Covers(infos, slot.domain)
  {
    var domains := Listing(set slot | slot in storage.disk && IsHost(slot.domain) :: slot.domain);
    infos := [];
    var i := 0;
    while i < |domains|
      invariant 0 <= i <= |domains| && |infos| == i
      invariant forall j :: 0 <= j < i ==> Describes(storage.View(), infos[j]) && infos[j].domain == domains[j]
    {
      infos := infos + [storage.InfoOf(domains[i])];
      i := i + 1;
    }
    hide IsHost;
    assert forall j :: 0 <= j < |domains| ==> domains[j] in domains;
    forall slot | slot in storage.disk && IsHost(slot.domain) ensures Covers(infos, slot.domain) {
      assert slot.domain in domains;
      var j :| 0 <= j < |domains| && domains[j] == slot.domain;
      assert infos[j].domain == slot.domain;
    }
  }

  lemma CoversNext(infos: seq<DomainInfo>, i: nat, domain: string)
    requires i < |infos|
    ensures Covers(infos[..i + 1], domain) <==> Covers(infos[..i], domain) || infos[i].domain == domain
  {
  }

  /** The inner loop: errors are ignored, so a version that cannot be removed does not stop it. */
  method RemoveSelected(
    storage: DomainStorage, domain: string, versions: seq<U32>, ghost s: State, ghost gone: set<Slot>)
    returns (ghost gone': set<Slot>)
    requires storage.View() == s.(disk := s.disk - gone)
    modifies storage
    ensures gone' == gone + set v | v in versions :: Slot(domain, v)
    ensures storage.View() == s.(disk := s.disk - gone')
  {
    gone' := gone;
    var i := 0;
    while i < |versions|
      invariant 0 <= i <= |versions|
      invariant gone' == gone + set v | v in versions[..i] :: Slot(domain, v)
      invariant storage.View() == s.(disk := s.disk - gone')
    {
      assert versions[..i + 1] == versions[..i] + [versions[i]];
      var _ := storage.RemoveDomainVersion(domain, Some(versions[i]));
      gone' := gone' + {Slot(domain, versions[i])};
      assert storage.disk == s.disk - gone';
      i := i + 1;
    }
    assert versions[..i] == versions;
  }

  lemma DomainDoomed(s: State, info: DomainInfo, domain: Option<string>, reserve: Option<U32>, selected: seq<U32>)
    requires Describes(s, info)
    requires if domain.Some? then info.domain == domain.value else IsHost(info.domain)
    requires forall v :: v in selected <==>
              && v in info.versions
              && if reserve.Some? then
                   v < WrappingSub32(BaseOf(info), reserve.value)
                 else v != (if info.current.Some? then info.current.value else U32_MAX)
    ensures forall v: U32 :: v in selected <==> Slot(info.domain, v) in Doomed(s, domain, reserve)
  {
  }

  /** `service::remove_domain_version`. */
  method RemoveDomainVersions(storage: DomainStorage, domain: Option<string>, reserve: Option<U32>)
    modifies storage
    ensures storage.View() == DeleteStep(old(storage.View()), domain, reserve)
  {
    ghost var s := storage.View();
    var infos: seq<DomainInfo>;
    if domain.Some? {
      var info := storage.GetDomainInfoByDomain(domain.value);
      infos := if info.Some? then [info.value] else [];
    } else {
      infos := GetDomainInfo(storage);
    }
    ghost var gone: set<Slot> := {};
    var i := 0;
    while i < |infos|
      invariant 0 <= i <= |infos|
      invariant storage.View() == s.(disk := s.disk - gone)
      invariant forall slot :: slot in gone <==>
                  slot in Doomed(s, domain, reserve) && Covers(infos[..i], slot.domain)
    {
      hide Doomed, IsHost;
      assert infos[..i + 1] == infos[..i] + [infos[i]];
      var selected := SelectVersions(infos[i], reserve);
      DomainDoomed(s, infos[i], domain, reserve, selected);
      ghost var before := gone;
      gone := RemoveSelected(storage, infos[i].domain, selected, s, gone);
      forall slot ensures slot in gone <==> slot in Doomed(s, domain, reserve) && Covers(infos[..i + 1], slot.domain) {
        CoversNext(infos, i, slot.domain);
        assert slot in gone <==> slot in before || (slot.domain == infos[i].domain && slot.version in selected);
      }
      i := i + 1;
    }
    forall slot | slot in Doomed(s, domain, reserve) ensures slot in gone {
      assert slot.version in VersionsOf(s.disk, slot.domain);
      assert infos[..i] == infos;
      if domain.Some? {
        assert infos[0].domain == slot.domain;
      }
      assert Covers(infos, slot.domain);
    }
    assert gone == Doomed(s, domain, reserve);
  }

  // What a delete leaves

  /** `b` is the version that others are kept behind: the served one, or the greatest where none is served. */
  ghost predicate IsBase(s: State, d: string, b: U32) {
    if d in s.meta then b == s.meta[d]
    else Slot(d, b) in s.disk && forall v: U32 :: Slot(d, v) in s.disk ==> v <= b
  }

  /**
   What a delete with a reserve leaves of a targeted domain: what is no older than the base minus the reserve, or,
   where the reserve exceeds the base, minus the reserve plus 2^32.
   */
  lemma RemainsExactlyWhen(s: State, domain: Option<string>, reserve: U32, d: string, b: U32, v: U32)
    requires if domain.Some? then d == domain.value else IsHost(d)
    requires IsBase(s, d, b) && Slot(d, v) in s.disk
    ensures Slot(d, v) in DeleteStep(s, domain, Some(reserve)).disk <==>
              (if reserve <= b then b - reserve <= v else b - reserve + 0x1_0000_0000 <= v)
  {
    hide IsHost;
    assert v in VersionsOf(s.disk, d);
    if d !in s.meta {
      var m := Base(s, d);
      assert Slot(d, m) in s.disk;
    }
    assert Base(s, d) == b;
    assert reserve <= b ==> WrappingSub32(b, reserve) == b - reserve;
    assert reserve > b ==> WrappingSub32(b, reserve) == b - reserve + 0x1_0000_0000;
  }

  ghost predicate HasDomain(s: State, domain: Option<string>, d: string) {
    && (if domain.Some? then d == domain.value else IsHost(d))
    && VersionsOf(s.disk, d) != {}
  }

  /** Of the domain `d` exactly the versions from `base - reserve` on remain. */
  ghost predicate KeepsReserve(s: State, domain: Option<string>, reserve: U32, d: string)
    requires VersionsOf(s.disk, d) != {}
  {
    forall v :: v in VersionsOf(s.disk, d) ==>
      (Slot(d, v) in DeleteStep(s, domain, Some(reserve)).disk <==> Base(s, d) - reserve <= v)
  }

  /**
   A delete keeps exactly the versions from `base - reserve` on if the reserve does not exceed the base, and
   otherwise only where there is no version below the wrapped threshold to lose. When the base itself is
   on disk, as every served version is, it holds only if the reserve does not exceed it.
   */
  lemma RetentionIsExact(s: State, domain: Option<string>, reserve: U32, d: string)
    requires HasDomain(s, domain, d)
    ensures KeepsReserve(s, domain, reserve, d) <==>
              || reserve <= Base(s, d)
              || forall v :: v in VersionsOf(s.disk, d) ==> Base(s, d) - reserve + U32_LIMIT <= v
    ensures Base(s, d) in VersionsOf(s.disk, d) ==> (KeepsReserve(s, domain, reserve, d) <==> reserve <= Base(s, d))
  {
    hide IsHost;
    assert reserve <= Base(s, d) ==> WrappingSub32(Base(s, d), reserve) == Base(s, d) - reserve;
    assert reserve > Base(s, d) ==> WrappingSub32(Base(s, d), reserve) == Base(s, d) - reserve + U32_LIMIT;
    forall v | v in VersionsOf(s.disk, d)
      ensures Slot(d, v) in DeleteStep(s, domain, Some(reserve)).disk <==> WrappingSub32(Base(s, d), reserve) <= v
    {
      assert Slot(d, v) in s.disk;
    }
  }

  lemma {:induction false} IntervalSize(s: set<U32>, lo: int, hi: int)
    requires lo <= hi + 1 && forall v :: v in s ==> lo <= v <= hi
    ensures |s| <= hi + 1 - lo
    decreases hi + 1 - lo
  {
    if lo <= hi {
      var rest := set v | v in s && v != hi;
      IntervalSize(rest, lo, hi - 1);
      if hi in s {
        assert s == rest + {hi};
      } else {
        assert s == rest;
      }
    } else {
      assert s == {} by {
        if v :| v in s {
          assert false;
        }
      }
    }
  }

  /** At most `reserve + 1` of them are not newer than the base. */
  lemma RetentionBound(s: State, domain: Option<string>, reserve: U32, d: string)
    requires HasDomain(s, domain, d) && reserve <= Base(s, d)
    ensures |set v | v in VersionsOf(DeleteStep(s, domain, Some(reserve)).disk, d) && v <= Base(s, d)| <= reserve + 1
  {
    hide IsHost;
    var s' := DeleteStep(s, domain, Some(reserve));
    var kept := set v | v in VersionsOf(s'.disk, d) && v <= Base(s, d);
    RetentionIsExact(s, domain, reserve, d);
    forall v | v in kept ensures Base(s, d) - reserve <= v <= Base(s, d) {
      assert Slot(d, v) in s'.disk;
      assert v in VersionsOf(s.disk, d);
    }
    IntervalSize(kept, Base(s, d) - reserve, Base(s, d));
  }

  /**
   The version that others are kept behind, served or (where none is served) the greatest, survives a targeted
   delete with a reserve exactly when the reserve does not exceed it.
   */
  lemma BaseSurvives(s: State, domain: Option<string>, reserve: U32, slot: Slot)
    requires slot in s.disk && HasDomain(s, domain, slot.domain) && IsBase(s, slot.domain, slot.version)
    ensures slot in DeleteStep(s, domain, Some(reserve)).disk <==> reserve <= slot.version
  {
    RemainsExactlyWhen(s, domain, reserve, slot.domain, slot.version, slot.version);
  }

  /** A delete without a reserve keeps the served version only, or version u32::MAX where none is served. */
  lemma WithoutReserve(s: State, domain: Option<string>, slot: Slot)
    requires slot in s.disk && if domain.Some? then slot.domain == domain.value else IsHost(slot.domain)
    ensures slot in DeleteStep(s, domain, None).disk <==>
              slot.version == if slot.domain in s.meta then s.meta[slot.domain] else 0xFFFF_FFFF
  {
  }

  /**
   Wrap-around at work: keeping two versions behind version 1 deletes version 1 itself, be it served or only
   the greatest of a domain that serves nothing.
   */
  lemma ReserveTooLarge(meta: map<string, U32>)
    requires meta == map["www.example.com" := 1] || meta == map[]
    ensures var slot := Slot("www.example.com", 1);
            var s := State(map[slot := EMPTY_DIR], meta, map[], map[]);
            slot !in DeleteStep(s, Some("www.example.com"), Some(2)).disk
  {
    var slot := Slot("www.example.com", 1);
    var s := State(map[slot := EMPTY_DIR], meta, map[], map[]);
    assert slot.version in VersionsOf(s.disk, slot.domain);
    BaseSurvives(s, Some("www.example.com"), 2, slot);
  }

  /** Domains that are not targeted keep every version; maps in memory are never touched. */
  lemma OthersUntouched(s: State, domain: Option<string>, reserve: Option<U32>, slot: Slot)
    requires slot in s.disk && if domain.Some? then slot.domain != domain.value else !IsHost(slot.domain)
    ensures slot in DeleteStep(s, domain, reserve).disk
    ensures DeleteStep(s, domain, reserve).disk[slot] == s.disk[slot]
    ensures DeleteStep(s, domain, reserve) == s.(disk := DeleteStep(s, domain, reserve).disk)
  {
  }

  /** A second run deletes nothing, whatever the reserve. */
  lemma DeleteIsIdempotent(s: State, domain: Option<string>, reserve: Option<U32>)
    ensures Doomed(DeleteStep(s, domain, reserve), domain, reserve) == {}
  {
    hide IsHost;
    var s' := DeleteStep(s, domain, reserve);
    forall slot | slot in s'.disk && Targeted(domain, slot) ensures !Expired(s', slot, reserve) {
      var d := slot.domain;
      assert slot.version in VersionsOf(s.disk, d) && slot.version in VersionsOf(s'.disk, d);
      assert !Expired(s, slot, reserve);
      if reserve.Some? && d !in s.meta {
        // the greatest version is kept as soon as any version is
        var top := Slot(d, Max(VersionsOf(s.disk, d)));
        assert top in s.disk && !Expired(s, top, reserve);
        assert top in s'.disk;
        assert IsMax(top.version, VersionsOf(s'.disk, d));
      }
    }
  }
}
