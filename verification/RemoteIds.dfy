/** The allocator of unique ids for remote subentries, in the two places it is written. */
module RemoteIds {
  import opened Wrappers

  datatype Kind = Hub | Remote | OtherKind

  datatype Subentry = Subentry(kind: Kind, uniqueId: Option<string>)

  // ---------- decimal suffixes ----------

  function Digit(d: nat): char
    requires d < 10
  {
    "0123456789"[d]
  }

  function Decimal(n: nat): (r: string)
    ensures r != []
  {
    if n < 10 then [Digit(n)] else Decimal(n / 10) + [Digit(n % 10)]
  }

  lemma DigitInjective(a: nat, b: nat)
    requires a < 10 && b < 10 && Digit(a) == Digit(b)
    ensures a == b
  {
  }

  lemma {:induction false} DecimalInjective(m: nat, n: nat)
    requires Decimal(m) == Decimal(n)
    ensures m == n
  {
    var s, t := Decimal(m), Decimal(n);
    assert s[|s| - 1] == Digit(m % 10) && t[|t| - 1] == Digit(n % 10);
    DigitInjective(m % 10, n % 10);
    if m >= 10 && n >= 10 {
      assert s[..|s| - 1] == Decimal(m / 10) && t[..|t| - 1] == Decimal(n / 10);
      DecimalInjective(m / 10, n / 10);
    }
  }

  /** The number a decimal text stands for. */
  function Value(s: string): int
    decreases |s|
  {
    if s == [] then 0 else 10 * Value(s[..|s| - 1]) + (s[|s| - 1] as int - '0' as int)
  }

  lemma DigitValue(d: nat)
    requires d < 10
    ensures Digit(d) as int - '0' as int == d
  {
  }

  /** A decimal text has digits only, no leading zero but for zero itself, and stands for its number. */
  lemma {:induction false} DecimalValue(n: nat)
    ensures Value(Decimal(n)) == n
    ensures forall i :: 0 <= i < |Decimal(n)| ==> '0' <= Decimal(n)[i] <= '9'
    ensures n > 0 ==> Decimal(n)[0] != '0'
  {
    var s := Decimal(n);
    DigitValue(n % 10);
    if n >= 10 {
      DecimalValue(n / 10);
      assert s[..|s| - 1] == Decimal(n / 10);
    } else {
      assert s[..0] == [];
    }
  }

  /** The id tried with a suffix. */
  function Suffixed(base: string, index: nat): string {
    base + "_" + Decimal(index)
  }

  lemma SuffixedInjective(base: string, i: nat, j: nat)
    requires Suffixed(base, i) == Suffixed(base, j)
    ensures i == j
  {
    assert Suffixed(base, i)[|base| + 1..] == Decimal(i);
    assert Suffixed(base, j)[|base| + 1..] == Decimal(j);
    DecimalInjective(i, j);
  }

  // ---------- the allocator ----------

  function BaseId(hubId: string, slug: string): string {
    hubId + "_" + slug
  }

  /** The ids remotes already use; an absent or empty id does not count. */
  function ExistingIds(subentries: seq<Subentry>): set<string> {
    set s | s in subentries && s.kind == Remote && s.uniqueId.Some? && s.uniqueId.value != "" :: s.uniqueId.value
  }

  /** The base itself if free, else the base with the least free suffix from two on. */
  ghost predicate IsNextId(base: string, existing: set<string>, id: string) {
    if base !in existing then id == base
    else exists k: nat :: IsLeastFree(base, existing, k) && id == Suffixed(base, k)
  }

  ghost predicate IsLeastFree(base: string, existing: set<string>, k: nat) {
    && 2 <= k
    && Suffixed(base, k) !in existing
    && forall j: nat :: 2 <= j < k ==> Suffixed(base, j) in existing
  }

  /** The ids tried before an index. */
  ghost function Tried(base: string, index: nat): set<string> {
    if index <= 2 then {} else Tried(base, index - 1) + {Suffixed(base, index - 1)}
  }

  lemma {:induction false} NotTriedYet(base: string, index: nat, k: nat)
    requires index <= k
    ensures Suffixed(base, k) !in Tried(base, index)
    decreases index
  {
    if index > 2 {
      NotTriedYet(base, index - 1, k);
      if Suffixed(base, k) == Suffixed(base, index - 1) {
        SuffixedInjective(base, k, index - 1);
      }
    }
  }

  /** Tries never repeat: the decimal suffix is injective. */
  lemma {:induction false} TriedCount(base: string, index: nat)
    requires index >= 2
    ensures |Tried(base, index)| == index - 2
    ensures base !in Tried(base, index)
    decreases index
  {
    if index > 2 {
      TriedCount(base, index - 1);
      NotTriedYet(base, index - 1, index - 1);
      assert |Suffixed(base, index - 1)| > |base|;
    }
  }

  /** The suffix search. It ends within as many tries as there are existing ids, because every failed
      try uses up one of them. */
  method FindFreeSuffix(base: string, existing: set<string>) returns (index: nat)
    requires base in existing
    ensures IsLeastFree(base, existing, index)
    ensures index - 1 <= |existing|
  {
    index := 2;
    while Suffixed(base, index) in existing
      invariant 2 <= index && Tried(base, index) <= existing
      invariant forall j: nat :: 2 <= j < index ==> Suffixed(base, j) in existing
      decreases |existing| + 2 - index
    {
      TriesFit(base, existing, index);
      index := index + 1;
    }
    TriesFit(base, existing, index);
  }

  lemma TriesFit(base: string, existing: set<string>, index: nat)
    requires base in existing && index >= 2 && Tried(base, index) <= existing
    ensures index - 1 <= |existing|
  {
    TriedCount(base, index);
    SubsetSize(Tried(base, index) + {base}, existing);
  }

  lemma {:induction false} SubsetSize(a: set<string>, b: set<string>)
    requires a <= b
    ensures |a| <= |b|
  {
    assert b == a + (b - a);
  }

  /** The panel API's copy: also hands back the slug. */
  method UiNextRemoteUniqueId(subentries: seq<Subentry>, hubId: string, slug: string)
    returns (id: string, usedSlug: string)
    ensures IsNextId(BaseId(hubId, slug), ExistingIds(subentries), id) && usedSlug == slug
  {
    var base := BaseId(hubId, slug);
    var existing := ExistingIds(subentries);
    if base !in existing {
      return base, slug;
    }
    var index := FindFreeSuffix(base, existing);
    return Suffixed(base, index), slug;
  }

  /** The config flow's copy. */
  method FlowNextRemoteUniqueId(subentries: seq<Subentry>, hubId: string, slug: string) returns (id: string)
    ensures IsNextId(BaseId(hubId, slug), ExistingIds(subentries), id)
  {
    var base := BaseId(hubId, slug);
    var existing := ExistingIds(subentries);
    if base !in existing {
      return base;
    }
    var index := FindFreeSuffix(base, existing);
    id := Suffixed(base, index);
  }

  /** The specification has one solution, so both copies compute the same id. */
  lemma NextIdUnique(base: string, existing: set<string>, a: string, b: string)
    requires IsNextId(base, existing, a) && IsNextId(base, existing, b)
    ensures a == b && a !in existing
  {
    if base in existing {
      var i: nat :| IsLeastFree(base, existing, i) && a == Suffixed(base, i);
      var j: nat :| IsLeastFree(base, existing, j) && b == Suffixed(base, j);
      assert i == j;
    }
  }

  /** What an allocated id looks like: the hub's id, an underscore and the slug, and then nothing more
      exactly if that is free, else an underscore and a decimal number from two on. */
  lemma AllocatedIdForm(hubId: string, slug: string, existing: set<string>, id: string) returns (number: string)
    requires IsNextId(BaseId(hubId, slug), existing, id)
    ensures hubId + "_" + slug !in existing ==> id == hubId + "_" + slug
    ensures hubId + "_" + slug in existing ==>
      && id == hubId + "_" + slug + "_" + number && Value(number) >= 2
      && (forall i :: 0 <= i < |number| ==> '0' <= number[i] <= '9') && number != [] && number[0] != '0'
      && (forall j :: 2 <= j < Value(number) ==> hubId + "_" + slug + "_" + Decimal(j) in existing)
  {
    number := [];
    if BaseId(hubId, slug) in existing {
      var k: nat :| IsLeastFree(BaseId(hubId, slug), existing, k) && id == Suffixed(BaseId(hubId, slug), k);
      number := Decimal(k);
      DecimalValue(k);
      assert forall j: nat :: Suffixed(BaseId(hubId, slug), j) == hubId + "_" + slug + "_" + Decimal(j);
    }
  }

  // ---------- whole runs ----------

  datatype Change =
    | AddRemote(hubId: string, slug: string, id: string)
    | AddOther(kind: Kind, otherId: Option<string>)
    | RemoveAt(index: nat)

  predicate RemoteWith(s: Subentry, id: string) {
    s.kind == Remote && s.uniqueId == Some(id) && id != ""
  }

  ghost predicate Distinct(subentries: seq<Subentry>) {
    forall i, j, id :: 0 <= i < j < |subentries| && RemoteWith(subentries[i], id) ==> !RemoteWith(subentries[j], id)
  }

  /** A change the user can make once the integration is set up: remotes only through the allocator. Ids
      given when older entries are migrated are part of the start. */
  ghost predicate Allowed(subentries: seq<Subentry>, c: Change) {
    match c
    case AddRemote(hubId, slug, id) => IsNextId(BaseId(hubId, slug), ExistingIds(subentries), id)
    case AddOther(kind, _) => kind != Remote
    case RemoveAt(index) => index < |subentries|
  }

  function Apply(subentries: seq<Subentry>, c: Change): seq<Subentry>
    requires c.RemoveAt? ==> c.index < |subentries|
  {
    match c
    case AddRemote(_, _, id) => subentries + [Subentry(Remote, Some(id))]
    case AddOther(kind, id) => subentries + [Subentry(kind, id)]
    case RemoveAt(index) => subentries[..index] + subentries[index + 1..]
  }

  ghost predicate Run(subentries: seq<Subentry>, changes: seq<Change>, final: seq<Subentry>)
    decreases |changes|
  {
    if changes == [] then final == subentries
    else Allowed(subentries, changes[0]) && Run(Apply(subentries, changes[0]), changes[1..], final)
  }

  lemma UsedIdExists(subentries: seq<Subentry>, i: nat, id: string)
    requires i < |subentries| && RemoteWith(subentries[i], id)
    ensures id in ExistingIds(subentries)
  {
    assert subentries[i] in subentries;
  }

  /** An allocated id is not in use, whatever ids there are and wherever they came from. */
  lemma AllocatedIdIsNew(subentries: seq<Subentry>, hubId: string, slug: string, id: string, i: nat)
    requires IsNextId(BaseId(hubId, slug), ExistingIds(subentries), id) && i < |subentries|
    ensures !RemoteWith(subentries[i], id)
  {
    NextIdUnique(BaseId(hubId, slug), ExistingIds(subentries), id, id);
    if RemoteWith(subentries[i], id) {
      UsedIdExists(subentries, i, id);
    }
  }

  /** How many remotes have an id. */
  function Copies(subentries: seq<Subentry>, id: string): nat {
    if subentries == [] then 0
    else Copies(subentries[..|subentries| - 1], id) + if RemoteWith(subentries[|subentries| - 1], id) then 1 else 0
  }

  lemma CopiesOfAppend(subentries: seq<Subentry>, s: Subentry, id: string)
    ensures Copies(subentries + [s], id) == Copies(subentries, id) + if RemoteWith(s, id) then 1 else 0
  {
    assert (subentries + [s])[..|subentries|] == subentries;
  }

  lemma {:induction false} CopiesOfParts(a: seq<Subentry>, b: seq<Subentry>, id: string)
    ensures Copies(a + b, id) == Copies(a, id) + Copies(b, id)
    decreases |b|
  {
    if b == [] {
      assert a + b == a;
    } else {
      var last := |b| - 1;
      CopiesOfParts(a, b[..last], id);
      CopiesOfAppend(a + b[..last], b[last], id);
      assert a + b[..last] + [b[last]] == a + b;
    }
  }

  lemma {:induction false} NoCopies(subentries: seq<Subentry>, id: string)
    requires forall i :: 0 <= i < |subentries| ==> !RemoteWith(subentries[i], id)
    ensures Copies(subentries, id) == 0
    decreases |subentries|
  {
    if subentries != [] {
      NoCopies(subentries[..|subentries| - 1], id);
    }
  }

  lemma ChangeAddsNoCopy(subentries: seq<Subentry>, c: Change, id: string)
    requires Allowed(subentries, c)
    ensures Copies(Apply(subentries, c), id) <= if Copies(subentries, id) == 0 then 1 else Copies(subentries, id)
  {
    match c {
      case AddRemote(hubId, slug, given) =>
        CopiesOfAppend(subentries, Subentry(Remote, Some(given)), id);
        if given == id {
          forall i | 0 <= i < |subentries|
            ensures !RemoteWith(subentries[i], id)
          {
            AllocatedIdIsNew(subentries, hubId, slug, id, i);
          }
          NoCopies(subentries, id);
        }
      case AddOther(kind, given) => CopiesOfAppend(subentries, Subentry(kind, given), id);
      case RemoveAt(index) => RemovalAddsNoCopy(subentries, index, id);
    }
  }

  lemma RemovalAddsNoCopy(subentries: seq<Subentry>, index: nat, id: string)
    requires index < |subentries|
    ensures Copies(subentries[..index] + subentries[index + 1..], id) <= Copies(subentries, id)
  {
    var before, after := subentries[..index], subentries[index + 1..];
    CopiesOfParts(before, after, id);
    CopiesOfParts(before + [subentries[index]], after, id);
    CopiesOfAppend(before, subentries[index], id);
    assert before + [subentries[index]] + after == subentries;
  }

  /** Over any run, from any start, no id gets a second copy: it ends on at most one remote, or on no more
      than it started on. */
  lemma {:induction false} RunAddsNoCopy(subentries: seq<Subentry>, changes: seq<Change>, final: seq<Subentry>, id: string)
    requires Run(subentries, changes, final)
    ensures Copies(final, id) <= if Copies(subentries, id) == 0 then 1 else Copies(subentries, id)
    decreases |changes|
  {
    if changes != [] {
      ChangeAddsNoCopy(subentries, changes[0], id);
      RunAddsNoCopy(Apply(subentries, changes[0]), changes[1..], final, id);
    }
  }

  /** The ids in use are exactly those of the remotes; hubs and empty ids do not count. */
  lemma ExistingIdsAreRemoteIds(subentries: seq<Subentry>, id: string)
    ensures id in ExistingIds(subentries) <==>
      id != "" && exists i :: 0 <= i < |subentries| && subentries[i] == Subentry(Remote, Some(id))
  {
    if id in ExistingIds(subentries) {
      var s :| s in subentries && s == Subentry(Remote, Some(id));
      var i :| 0 <= i < |subentries| && subentries[i] == s;
    }
  }

  lemma ChangeKeepsDistinct(subentries: seq<Subentry>, c: Change)
    requires Distinct(subentries) && Allowed(subentries, c)
    ensures Distinct(Apply(subentries, c))
  {
    match c {
      case AddRemote(hubId, slug, id) =>
        forall i | 0 <= i < |subentries|
          ensures !RemoteWith(subentries[i], id)
        {
          AllocatedIdIsNew(subentries, hubId, slug, id, i);
        }
      case AddOther(_, _) =>
      case RemoveAt(_) =>
    }
  }

  /** Over any run of additions and removals all remote ids stay pairwise distinct. */
  lemma {:induction false} RunKeepsDistinct(subentries: seq<Subentry>, changes: seq<Change>, final: seq<Subentry>)
    requires Distinct(subentries) && Run(subentries, changes, final)
    ensures Distinct(final)
    decreases |changes|
  {
    if changes != [] {
      ChangeKeepsDistinct(subentries, changes[0]);
      RunKeepsDistinct(Apply(subentries, changes[0]), changes[1..], final);
    }
  }

  /** An allocated id is never empty, so it always takes part in later searches. */
  lemma AllocatedIdIsSeen(subentries: seq<Subentry>, hubId: string, slug: string, id: string)
    requires IsNextId(BaseId(hubId, slug), ExistingIds(subentries), id)
    ensures ExistingIds(Apply(subentries, AddRemote(hubId, slug, id))) == ExistingIds(subentries) + {id}
  {
    var after := Apply(subentries, AddRemote(hubId, slug, id));
    assert id != "";
    assert after[|subentries|] in after;
    forall s | s in subentries
      ensures s in after
    {
      var i :| 0 <= i < |subentries| && subentries[i] == s;
      assert after[i] == s;
    }
  }
}
