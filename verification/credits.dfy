/**
  Phase 4 of the original: the cast sheet of one profile. Every cast member
  of the profile's cast list gives one row holding the member's roster id and
  a name, which is the structured name when the member has no credited-as
  text and the parsed credited-as text otherwise. Divider entries give no row.
 */
module Credits {
  import opened Names
  import opened Roster

  /** One line of a cast sheet. */
  datatype CreditRow = CreditRow(id: int, name: Name, role: string)

  /** The name a cast sheet shows for a member. */
  function ShownName(p: Person, creditedAs: string, lex: Lexicons): Name {
    if creditedAs == [] then Name(p.firstName, p.middleName, p.lastName)
    else Parse(creditedAs, lex)
  }

  /**
    The cast sheet of `castList`, built entry by entry; a member the roster
    does not know stops it with `KeyNotFound`, as the original's indexer throws.
   */
  function CastSheet(roster: Roster, lex: Lexicons, castList: seq<Entry>): Result<seq<CreditRow>>
    decreases |castList|
  {
    if castList == [] then Success([])
    else
      match CastSheet(roster, lex, castList[..|castList| - 1])
      case Failure(err) => Failure(err)
      case Success(rows) =>
        match castList[|castList| - 1]
        case CastMember(p, role, creditedAs) =>
          (match Lookup(roster, p)
           case Failure(err) => Failure(err)
           case Success(id) => Success(rows + [CreditRow(id, ShownName(p, creditedAs, lex), role)]))
        case _ => Success(rows)
  }

  /**
    Positions of the cast-member entries of a list: every such position once,
    in increasing order.
   */
  function CastPositions(castList: seq<Entry>): (idx: seq<nat>)
    ensures forall k :: 0 <= k < |idx| ==> idx[k] < |castList| && castList[idx[k]].CastMember?
    ensures forall k, l :: 0 <= k < l < |idx| ==> idx[k] < idx[l]
    ensures forall i :: 0 <= i < |castList| && castList[i].CastMember? ==> i in idx
    decreases |castList|
  {
    if castList == [] then []
    else
      var n := |castList| - 1;
      var rest := CastPositions(castList[..n]);
      assert forall i :: 0 <= i < n ==> castList[..n][i] == castList[i];
      if castList[n].CastMember? then rest + [n] else rest
  }

  /**
    The cast-member entries of a cast list, in list order: the entries that
    give a row. They name the list's cast persons one for one.
   */
  function CastEntries(castList: seq<Entry>): (cs: seq<Entry>)
    ensures |cs| == |Persons(castList, Cast)|
    ensures forall k :: 0 <= k < |cs| ==> cs[k].CastMember? && cs[k] in castList
    ensures forall k :: 0 <= k < |cs| ==> cs[k].castPerson == Persons(castList, Cast)[k]
    decreases |castList|
  {
    if castList == [] then []
    else
      var pre := castList[..|castList| - 1];
      var e := castList[|castList| - 1];
      var rest := CastEntries(pre);
      assert forall k :: 0 <= k < |rest| ==> rest[k] in castList;
      if e.CastMember? then rest + [e] else rest
  }

  /**
    `CastEntries` keeps list order: its k-th entry is the list entry at the
    k-th cast-member position.
   */
  lemma {:induction false} CastEntriesInOrder(castList: seq<Entry>)
    ensures |CastEntries(castList)| == |CastPositions(castList)|
    ensures forall k :: 0 <= k < |CastEntries(castList)| ==>
      CastEntries(castList)[k] == castList[CastPositions(castList)[k]]
    decreases |castList|
  {
    if castList != [] {
      var n := |castList| - 1;
      var pre := castList[..n];
      CastEntriesInOrder(pre);
      var rest, pos := CastEntries(pre), CastPositions(pre);
      assert forall k :: 0 <= k < |rest| ==> rest[k] == castList[pos[k]];
      if castList[n].CastMember? {
        assert CastEntries(castList) == rest + [castList[n]];
        assert CastPositions(castList) == pos + [n];
      } else {
        assert CastEntries(castList) == rest;
        assert CastPositions(castList) == pos;
      }
    }
  }

  /**
    The cast sheet succeeds exactly when the roster knows every cast member,
    and then it has one row per member, in list order, carrying the member's
    id, the name the sheet shows for it and its role. A failure is always
    `KeyNotFound`.
   */
  lemma {:induction false} CastSheetRows(roster: Roster, lex: Lexicons, castList: seq<Entry>)
    ensures CastSheet(roster, lex, castList).Success? <==>
      forall p :: p in Persons(castList, Cast) ==> ContainsKey(roster, p)
    ensures CastSheet(roster, lex, castList).Failure? ==>
      CastSheet(roster, lex, castList).error == KeyNotFound
    ensures CastSheet(roster, lex, castList).Success? ==>
      var rows := CastSheet(roster, lex, castList).value;
      var ps := Persons(castList, Cast);
      |rows| == |ps| && forall k :: 0 <= k < |rows| ==> Lookup(roster, ps[k]) == Success(rows[k].id)
    ensures CastSheet(roster, lex, castList).Success? ==>
      var rows := CastSheet(roster, lex, castList).value;
      var cs := CastEntries(castList);
      |rows| == |cs| && forall k :: 0 <= k < |rows| ==>
        rows[k].name == ShownName(cs[k].castPerson, cs[k].creditedAs, lex) && rows[k].role == cs[k].role
    decreases |castList|
  {
    if castList != [] {
      var pre := castList[..|castList| - 1];
      CastSheetRows(roster, lex, pre);
      var ps := Persons(castList, Cast);
      var cs := CastEntries(castList);
      match PersonOf(castList[|castList| - 1], Cast)
      case None =>
        assert ps == Persons(pre, Cast);
        assert cs == CastEntries(pre);
      case Some(p) =>
        assert ps == Persons(pre, Cast) + [p];
        assert cs == CastEntries(pre) + [castList[|castList| - 1]];
    }
  }

  /**
    The cast loop of Phase 4: each cast member is looked up, and its
    credited-as text, when present, goes through `ParsePersonName`.
   */
  method CastCredits(roster: Roster, lex: Lexicons, castList: seq<Entry>) returns (sheet: Result<seq<CreditRow>>)
    ensures sheet == CastSheet(roster, lex, castList)
    ensures sheet.Success? <==> forall p :: p in Persons(castList, Cast) ==> ContainsKey(roster, p)
    ensures sheet.Failure? ==> sheet.error == KeyNotFound
    ensures sheet.Success? ==>
      var cs := CastEntries(castList);
      |sheet.value| == |cs| && forall k :: 0 <= k < |cs| ==>
        Lookup(roster, cs[k].castPerson) == Success(sheet.value[k].id)
        && sheet.value[k].name == ShownName(cs[k].castPerson, cs[k].creditedAs, lex)
        && sheet.value[k].role == cs[k].role
  {
    var rows: seq<CreditRow> := [];
    for j := 0 to |castList|
      invariant CastSheet(roster, lex, castList[..j]) == Success(rows)
    {
      assert castList[..j + 1][..j] == castList[..j];
      match castList[j]
      case CastMember(p, role, creditedAs) =>
        var found := Lookup(roster, p);
        if found.Failure? {
          assert CastSheet(roster, lex, castList[..j + 1]) == Failure(KeyNotFound);
          SheetFailureSticks(roster, lex, castList, j + 1);
          CastSheetRows(roster, lex, castList);
          return Failure(KeyNotFound);
        }
        var name: Name;
        if creditedAs == [] {
          name := Name(p.firstName, p.middleName, p.lastName);
        } else {
          name := ParsePersonName(creditedAs, lex);
        }
        rows := rows + [CreditRow(found.value, name, role)];
      case _ =>
    }
    assert castList[..|castList|] == castList;
    sheet := Success(rows);
    CastSheetRows(roster, lex, castList);
  }

  lemma {:induction false} SheetFailureSticks(roster: Roster, lex: Lexicons, castList: seq<Entry>, j: nat)
    requires j <= |castList|
    requires CastSheet(roster, lex, castList[..j]) == Failure(KeyNotFound)
    ensures CastSheet(roster, lex, castList) == Failure(KeyNotFound)
    decreases |castList| - j
  {
    if j < |castList| {
      assert castList[..j + 1][..j] == castList[..j];
      SheetFailureSticks(roster, lex, castList, j + 1);
    } else {
      assert castList[..j] == castList;
    }
  }

  /**
    On the roster Phase 3 builds from the whole collection, every profile's
    cast sheet succeeds: no lookup can miss.
   */
  lemma SheetAfterBuild(collection: seq<Dvd>, d: nat, lex: Lexicons)
    requires d < |collection|
    ensures CastSheet(Register(Empty(), CatalogPersons(collection)), lex, collection[d].castList).Success?
  {
    var roster := Register(Empty(), CatalogPersons(collection));
    var castList := collection[d].castList;
    RegisteredRoster(CatalogPersons(collection));
    forall p | p in Persons(castList, Cast) ensures ContainsKey(roster, p) {
      assert p in DvdPersons(collection[d]);
      CatalogCovers(collection, d, p);
    }
    CastSheetRows(roster, lex, castList);
  }
}
