/**
  The identity roster: every distinct person of the collection's cast and
  crew lists gets a numeric id, handed out by a counter that starts at 1, in
  the order persons are first seen. The original keeps the pairs in a
  dictionary and the counter in a static field; here the roster is an
  insertion-ordered sequence of (person, id) pairs plus the counter.

  `Dedup` is the reference: registering a sequence of persons into the empty
  roster gives exactly the table that numbers `Dedup` of that sequence from 1.
 */
module Roster {

  /** The four identity fields of a cast or crew member; `PersonKey` compares exactly these. */
  datatype Person = Person(firstName: string, middleName: string, lastName: string, birthYear: int)

  /** An entry of a cast or crew list: a member, or a divider line that names nobody. */
  datatype Entry =
    | CastMember(castPerson: Person, role: string, creditedAs: string)
    | CrewMember(crewPerson: Person, creditType: string)
    | Divider(caption: string)

  /** Which member type a list is filled with. */
  datatype Kind = Cast | Crew

  /** One profile of the collection; a missing list is an empty one. */
  datatype Dvd = Dvd(title: string, castList: seq<Entry>, crewList: seq<Entry>)

  datatype Option<T> = None | Some(value: T)

  datatype RosterError = DuplicateKey | KeyNotFound

  datatype Result<T> = Success(value: T) | Failure(error: RosterError)

  /** A table entry: the person's key and the id it was given. */
  type Slot = (Person, int)

  datatype Roster = Roster(entries: seq<Slot>, counter: int)

  // ---------------------------------------------------------------------
  // Keys

  /**
    `possiblePerson as T`: a cast list yields cast members and a crew list
    crew members; anything else is skipped.
   */
  function PersonOf(e: Entry, kind: Kind): (r: Option<Person>)
    ensures r.Some? <==> (kind == Cast && e.CastMember?) || (kind == Crew && e.CrewMember?)
  {
    match e
    case CastMember(p, _, _) => if kind == Cast then Some(p) else None
    case CrewMember(p, _) => if kind == Crew then Some(p) else None
    case Divider(_) => None
  }

  /**
    `PersonKey.Equals`: case-sensitive ordinal equality of last, first and
    middle name and birth year, 0 being an ordinary year. It coincides with
    equality of the identity record, so it is an equivalence relation.
   */
  function KeyEquals(a: Person, b: Person): (r: bool)
    ensures r <==> a == b
  {
    a.lastName == b.lastName && a.firstName == b.firstName
      && a.middleName == b.middleName && a.birthYear == b.birthYear
  }

  /** C#'s `x / 4` on integers, which truncates toward zero. */
  function Quarter(x: int): (q: int)
    ensures -3 <= x - 4 * q <= 3
    ensures x >= 0 ==> q >= 0 && x - 4 * q >= 0
    ensures x <= 0 ==> q <= 0 && x - 4 * q <= 0
  {
    if x >= 0 then x / 4 else -((-x) / 4)
  }

  /**
    `PersonKey.GetHashCode`: the sum of the quartered hashes of the four
    fields, in the original's order. `stringHash` stands for `String.GetHashCode`;
    an integer hashes to itself.
   */
  function KeyHash(p: Person, stringHash: string -> int): (h: int)
    ensures -12 <= stringHash(p.lastName) + stringHash(p.firstName)
      + stringHash(p.middleName) + p.birthYear - 4 * h <= 12
  {
    Quarter(stringHash(p.lastName)) + Quarter(stringHash(p.firstName))
      + Quarter(stringHash(p.middleName)) + Quarter(p.birthYear)
  }

  /**
    Quartering each term is what keeps the original's `Int32` sum in range:
    when the three string hashes and the birth year are `Int32` values, so is
    the hash, and no wrap-around can happen.
   */
  lemma KeyHashNeverWraps(p: Person, stringHash: string -> int)
    requires IsInt32(stringHash(p.lastName)) && IsInt32(stringHash(p.firstName))
    requires IsInt32(stringHash(p.middleName)) && IsInt32(p.birthYear)
    ensures IsInt32(KeyHash(p, stringHash))
  {
  }

  predicate IsInt32(x: int) {
    -0x8000_0000 <= x < 0x8000_0000
  }

  /** Equal keys hash equal, whatever the string hash is. */
  lemma EqualKeysHashEqual(a: Person, b: Person, stringHash: string -> int)
    requires KeyEquals(a, b)
    ensures KeyHash(a, stringHash) == KeyHash(b, stringHash)
  {
  }

  // ---------------------------------------------------------------------
  // The table

  /** The roster before anything is added: the counter starts at 1. */
  function Empty(): Roster {
    Roster([], 1)
  }

  /** Index of the slot holding a key equal to `p`, or -1. */
  function Find(entries: seq<Slot>, p: Person): (i: int)
    ensures -1 <= i < |entries|
    ensures i == -1 <==> forall j :: 0 <= j < |entries| ==> !KeyEquals(entries[j].0, p)
    ensures i != -1 ==> entries[i].0 == p
  {
    if |entries| == 0 then -1
    else if KeyEquals(entries[|entries| - 1].0, p) then |entries| - 1
    else Find(entries[..|entries| - 1], p)
  }

  /** `PersonHashtable.ContainsKey`: some stored key equals `p`. */
  predicate ContainsKey(r: Roster, p: Person): (b: bool)
    ensures !b <==> forall j :: 0 <= j < |r.entries| ==> r.entries[j].0 != p
  {
    Find(r.entries, p) != -1
  }

  /** `PersonHashtable[person]`: the id stored for the key, or `KeyNotFound`. */
  function Lookup(r: Roster, p: Person): (res: Result<int>)
    ensures res.Success? <==> ContainsKey(r, p)
    ensures res.Success? ==> (p, res.value) in r.entries
    ensures res.Failure? ==> res.error == KeyNotFound
  {
    var i := Find(r.entries, p);
    if i == -1 then Failure(KeyNotFound) else Success(r.entries[i].1)
  }

  /**
    `Hashtable.Add(key)`: the key is stored with the counter's value and the
    counter moves on by one; a key already present is refused.
   */
  function Add(r: Roster, p: Person): (res: Result<Roster>)
    ensures res.Failure? <==> ContainsKey(r, p)
    ensures res.Failure? ==> res.error == DuplicateKey
    ensures res.Success? ==> res.value.entries == r.entries + [(p, r.counter)]
    ensures res.Success? ==> res.value.counter == r.counter + 1
  {
    if ContainsKey(r, p) then Failure(DuplicateKey)
    else Success(Roster(r.entries + [(p, r.counter)], r.counter + 1))
  }

  /** The guarded insert: a key already present allocates nothing. */
  function Insert(r: Roster, p: Person): (r': Roster)
    ensures ContainsKey(r', p)
    ensures ContainsKey(r, p) ==> r' == r
    ensures !ContainsKey(r, p) ==> r'.entries == r.entries + [(p, r.counter)] && r'.counter == r.counter + 1
  {
    if ContainsKey(r, p) then r
    else
      var r' := Add(r, p).value;
      assert r'.entries[|r.entries|].0 == p;
      r'
  }

  /**
    `FillDynamicHash<T>`: a list entry that is not a `T` leaves the roster as
    it is; a person is inserted unless an equal key is already present.
   */
  function FillDynamicHash(r: Roster, e: Entry, kind: Kind): (r': Roster)
    ensures PersonOf(e, kind).None? ==> r' == r
    ensures PersonOf(e, kind).Some? ==> r' == Insert(r, PersonOf(e, kind).value)
  {
    match PersonOf(e, kind)
    case None => r
    case Some(p) => Insert(r, p)
  }

  /**
    What the roster keeps true: ids run 1, 2, ... in insertion order, the
    counter is the next id, and no key is stored twice.
   */
  predicate Valid(r: Roster) {
    && r.counter == |r.entries| + 1
    && (forall i :: 0 <= i < |r.entries| ==> r.entries[i].1 == i + 1)
    && (forall i, j :: 0 <= i < j < |r.entries| ==> r.entries[i].0 != r.entries[j].0)
  }

  /** Guarded inserts keep the roster valid. */
  lemma InsertKeepsValid(r: Roster, p: Person)
    requires Valid(r)
    ensures Valid(Insert(r, p))
  {
  }

  /** In a valid roster distinct keys have distinct ids. */
  lemma IdsInjective(r: Roster, p: Person, q: Person)
    requires Valid(r) && p != q
    requires Lookup(r, p).Success? && Lookup(r, q).Success?
    ensures Lookup(r, p).value != Lookup(r, q).value
  {
    var i, j := Find(r.entries, p), Find(r.entries, q);
    assert r.entries[i].1 == i + 1 && r.entries[j].1 == j + 1;
  }

  // ---------------------------------------------------------------------
  // Registering many persons

  /** Guarded inserts of `ps`, left to right. */
  function Register(r: Roster, ps: seq<Person>): Roster
    decreases |ps|
  {
    if ps == [] then r else Insert(Register(r, ps[..|ps| - 1]), ps[|ps| - 1])
  }

  /** Distinct persons of `ps` in the order they are first seen. */
  function Dedup(ps: seq<Person>): (d: seq<Person>)
    ensures forall i, j :: 0 <= i < j < |d| ==> d[i] != d[j]
    ensures forall p :: p in d <==> p in ps
    decreases |ps|
  {
    if ps == [] then []
    else
      var d := Dedup(ps[..|ps| - 1]);
      var p := ps[|ps| - 1];
      assert ps == ps[..|ps| - 1] + [p];
      if p in d then d else d + [p]
  }

  /** Position of the first occurrence of `p` in `ps`. */
  function FirstAt(ps: seq<Person>, p: Person): (i: nat)
    requires p in ps
    ensures i < |ps| && ps[i] == p
    ensures forall k :: 0 <= k < i ==> ps[k] != p
  {
    if ps[0] == p then 0 else 1 + FirstAt(ps[1..], p)
  }

  /** Appending never moves a first occurrence. */
  lemma FirstAtAppend(pre: seq<Person>, p: Person, x: Person)
    requires x in pre
    ensures FirstAt(pre + [p], x) == FirstAt(pre, x)
  {
    var a, b := FirstAt(pre + [p], x), FirstAt(pre, x);
    assert (pre + [p])[b] == x;
    assert a < |pre| ==> pre[a] == x;
  }

  /**
    `Dedup` lists the distinct persons in first-seen order: a person listed
    earlier first occurs earlier in `ps`.
   */
  lemma {:induction false} DedupOrder(ps: seq<Person>)
    ensures forall i, j :: 0 <= i < j < |Dedup(ps)| ==> FirstAt(ps, Dedup(ps)[i]) < FirstAt(ps, Dedup(ps)[j])
    decreases |ps|
  {
    if ps != [] {
      var pre := ps[..|ps| - 1];
      var p := ps[|ps| - 1];
      assert ps == pre + [p];
      DedupOrder(pre);
      var d := Dedup(pre);
      forall x | x in d
        ensures FirstAt(ps, x) == FirstAt(pre, x)
      {
        FirstAtAppend(pre, p, x);
      }
      if p !in d {
        assert FirstAt(ps, p) == |pre|;
      }
    }
  }

  /** The roster numbering `d` from 1. */
  function Table(d: seq<Person>): (r: Roster)
    ensures |r.entries| == |d|
    ensures forall i :: 0 <= i < |d| ==> r.entries[i] == (d[i], i + 1)
  {
    Roster(seq(|d|, i requires 0 <= i < |d| => (d[i], i + 1)), |d| + 1)
  }

  lemma TableContains(d: seq<Person>, p: Person)
    ensures ContainsKey(Table(d), p) <==> p in d
  {
    var r := Table(d);
    if p in d {
      var i :| 0 <= i < |d| && d[i] == p;
      assert KeyEquals(r.entries[i].0, p);
    }
  }

  lemma TableStep(d: seq<Person>, p: Person)
    ensures Insert(Table(d), p) == Table(if p in d then d else d + [p])
  {
    TableContains(d, p);
    if p !in d {
      assert Insert(Table(d), p).entries == Table(d + [p]).entries;
    }
  }

  /**
    Registering into the empty roster numbers the distinct persons from 1 in
    first-seen order.
   */
  lemma {:induction false} RegisterIsTable(ps: seq<Person>)
    ensures Register(Empty(), ps) == Table(Dedup(ps))
    decreases |ps|
  {
    if ps == [] {
      assert Table([]).entries == [];
    } else {
      RegisterIsTable(ps[..|ps| - 1]);
      TableStep(Dedup(ps[..|ps| - 1]), ps[|ps| - 1]);
    }
  }

  /**
    The registered roster is valid, holds exactly the persons seen, and gives
    the `k`-th distinct person seen the id `k + 1`.
   */
  lemma RegisteredRoster(ps: seq<Person>)
    ensures Valid(Register(Empty(), ps))
    ensures forall p :: ContainsKey(Register(Empty(), ps), p) <==> p in ps
    ensures forall k :: 0 <= k < |Dedup(ps)| ==> Lookup(Register(Empty(), ps), Dedup(ps)[k]) == Success(k + 1)
  {
    RegisterIsTable(ps);
    var d := Dedup(ps);
    forall p ensures ContainsKey(Table(d), p) <==> p in ps {
      TableContains(d, p);
    }
    forall k | 0 <= k < |d| ensures Lookup(Table(d), d[k]) == Success(k + 1) {
      TableLookup(d, k);
    }
  }

  lemma TableLookup(d: seq<Person>, k: nat)
    requires k < |d|
    requires forall i, j :: 0 <= i < j < |d| ==> d[i] != d[j]
    ensures Lookup(Table(d), d[k]) == Success(k + 1)
  {
    var r := Table(d);
    TableContains(d, d[k]);
    var i := Find(r.entries, d[k]);
    assert r.entries[i].0 == d[i];
  }

  lemma {:induction false} RegisterAppend(r: Roster, a: seq<Person>, b: seq<Person>)
    ensures Register(r, a + b) == Register(Register(r, a), b)
    decreases |b|
  {
    if b == [] {
      assert a + b == a;
    } else {
      var b' := b[..|b| - 1];
      assert (a + b)[..|a + b| - 1] == a + b';
      RegisterAppend(r, a, b');
    }
  }

  lemma {:induction false} RegisterKeeps(r: Roster, ps: seq<Person>, p: Person)
    requires ContainsKey(r, p)
    ensures Lookup(Register(r, ps), p) == Lookup(r, p)
    decreases |ps|
  {
    if ps != [] {
      var r' := Register(r, ps[..|ps| - 1]);
      RegisterKeeps(r, ps[..|ps| - 1], p);
      var q := ps[|ps| - 1];
      if !ContainsKey(r', q) {
        assert Find(Insert(r', q).entries, p) == Find(r'.entries, p) by {
          FindAppend(r'.entries, (q, r'.counter), p);
        }
      }
    }
  }

  lemma FindAppend(entries: seq<Slot>, s: Slot, p: Person)
    requires Find(entries, p) != -1
    ensures Find(entries + [s], p) == Find(entries, p) || s.0 == p
  {
    assert (entries + [s])[..|entries|] == entries;
  }

  /** Lookup is stable: once a person is in, later registrations never change its id. */
  lemma LookupStable(a: seq<Person>, b: seq<Person>, p: Person)
    requires p in a
    ensures Lookup(Register(Empty(), a + b), p) == Lookup(Register(Empty(), a), p)
  {
    RegisteredRoster(a);
    RegisterAppend(Empty(), a, b);
    RegisterKeeps(Register(Empty(), a), b, p);
  }

  // ---------------------------------------------------------------------
  // The collection

  /** The persons a list yields, in list order. */
  function Persons(list: seq<Entry>, kind: Kind): (ps: seq<Person>)
    ensures |ps| <= |list|
    decreases |list|
  {
    if list == [] then []
    else
      var rest := Persons(list[..|list| - 1], kind);
      match PersonOf(list[|list| - 1], kind)
      case None => rest
      case Some(p) => rest + [p]
  }

  /** Every person a list entry names is among the list's persons. */
  lemma {:induction false} PersonsCover(list: seq<Entry>, kind: Kind, i: nat)
    requires i < |list| && PersonOf(list[i], kind).Some?
    ensures PersonOf(list[i], kind).value in Persons(list, kind)
    decreases |list|
  {
    if i < |list| - 1 {
      PersonsCover(list[..|list| - 1], kind, i);
    }
  }

  /** The cast and then the crew of one profile. */
  function DvdPersons(dvd: Dvd): seq<Person> {
    Persons(dvd.castList, Cast) + Persons(dvd.crewList, Crew)
  }

  /** The persons of the whole collection, profile by profile. */
  function CatalogPersons(dvds: seq<Dvd>): seq<Person>
    decreases |dvds|
  {
    if dvds == [] then [] else CatalogPersons(dvds[..|dvds| - 1]) + DvdPersons(dvds[|dvds| - 1])
  }

  lemma {:induction false} CatalogCovers(dvds: seq<Dvd>, d: nat, p: Person)
    requires d < |dvds| && p in DvdPersons(dvds[d])
    ensures p in CatalogPersons(dvds)
    decreases |dvds|
  {
    if d < |dvds| - 1 {
      CatalogCovers(dvds[..|dvds| - 1], d, p);
    }
  }

  lemma FillStep(r: Roster, base: seq<Person>, list: seq<Entry>, kind: Kind, j: nat)
    requires j < |list|
    requires r == Register(Empty(), base + Persons(list[..j], kind))
    ensures FillDynamicHash(r, list[j], kind) == Register(Empty(), base + Persons(list[..j + 1], kind))
  {
    var ps := base + Persons(list[..j], kind);
    PersonsStep(list, j, kind);
    match PersonOf(list[j], kind)
    case None =>
      assert base + Persons(list[..j + 1], kind) == ps;
    case Some(p) =>
      assert base + Persons(list[..j + 1], kind) == ps + [p];
      RegisterSnoc(Empty(), ps, p);
  }

  /** One more list entry adds its person, if it names one, at the end. */
  lemma PersonsStep(list: seq<Entry>, j: nat, kind: Kind)
    requires j < |list|
    ensures Persons(list[..j + 1], kind) == Persons(list[..j], kind)
      + (if PersonOf(list[j], kind).Some? then [PersonOf(list[j], kind).value] else [])
  {
    var pre := list[..j + 1];
    assert pre[..|pre| - 1] == list[..j];
    assert pre[|pre| - 1] == list[j];
  }

  /** Registering one more person is one more guarded insert. */
  lemma RegisterSnoc(r: Roster, ps: seq<Person>, p: Person)
    ensures Register(r, ps + [p]) == Insert(Register(r, ps), p)
  {
    var q := ps + [p];
    assert q[..|q| - 1] == ps;
  }

  /**
    One inner loop of Phase 3: every entry of `list` goes through
    `FillDynamicHash`, and the persons it names are registered in list order.
   */
  method FillList(start: Roster, list: seq<Entry>, kind: Kind, ghost base: seq<Person>) returns (roster: Roster)
    requires start == Register(Empty(), base)
    ensures roster == Register(Empty(), base + Persons(list, kind))
  {
    roster := start;
    assert base + Persons(list[..0], kind) == base;
    for j := 0 to |list|
      invariant roster == Register(Empty(), base + Persons(list[..j], kind))
    {
      FillStep(roster, base, list, kind, j);
      roster := FillDynamicHash(roster, list[j], kind);
    }
    assert list[..|list|] == list;
  }

  lemma CatalogStep(collection: seq<Dvd>, d: nat)
    requires d < |collection|
    ensures CatalogPersons(collection[..d + 1])
      == CatalogPersons(collection[..d]) + Persons(collection[d].castList, Cast) + Persons(collection[d].crewList, Crew)
  {
    assert collection[..d + 1][..d] == collection[..d];
  }

  /**
    Phase 3 of the original: every profile's cast list, then its crew list,
    goes through `FillDynamicHash` into one roster.
   */
  method BuildRoster(collection: seq<Dvd>) returns (roster: Roster)
    ensures roster == Register(Empty(), CatalogPersons(collection))
    ensures roster == Table(Dedup(CatalogPersons(collection)))
  {
    roster := Empty();
    for d := 0 to |collection|
      invariant roster == Register(Empty(), CatalogPersons(collection[..d]))
    {
      var dvd := collection[d];
      ghost var base := CatalogPersons(collection[..d]);
      roster := FillList(roster, dvd.castList, Cast, base);
      roster := FillList(roster, dvd.crewList, Crew, base + Persons(dvd.castList, Cast));
      CatalogStep(collection, d);
    }
    assert collection[..|collection|] == collection;
    RegisterIsTable(CatalogPersons(collection));
  }

  /** After the build every cast or crew member of every profile can be looked up. */
  lemma BuiltRosterCovers(collection: seq<Dvd>, d: nat, i: nat, kind: Kind)
    requires d < |collection|
    requires i < |(if kind == Cast then collection[d].castList else collection[d].crewList)|
    requires PersonOf((if kind == Cast then collection[d].castList else collection[d].crewList)[i], kind).Some?
    ensures Lookup(Register(Empty(), CatalogPersons(collection)),
      PersonOf((if kind == Cast then collection[d].castList else collection[d].crewList)[i], kind).value).Success?
  {
    var list := if kind == Cast then collection[d].castList else collection[d].crewList;
    var p := PersonOf(list[i], kind).value;
    PersonsCover(list, kind, i);
    assert p in DvdPersons(collection[d]);
    CatalogCovers(collection, d, p);
    RegisteredRoster(CatalogPersons(collection));
  }
}
