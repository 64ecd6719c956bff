/**
 * The join tables ProjectUsers and TaskUsers as sets of rows, and the two ways the
 * services write them: Create* adds one row per requested id that is a user, and Update*
 * with a non-null list removes all the owner's rows and adds those rows instead.
 */
module Membership {
  import opened Wrappers
  import opened Entities

  /** The user ids linked to `owner` (`.Select(pu => pu.UserId)` of the owner's rows). */
  function MembersOf(links: set<Link>, owner: Id): set<Id> {
    set l | l in links && l.owner == owner :: l.user
  }

  /** `_context.Users.Where(u => ids.Contains(u.Id)).Select(u => u.Id)`: the requested
      ids that belong to a user. Unknown ids drop out and duplicates collapse, so there
      are never more of them than ids in the request. */
  function ValidUserIds(ids: seq<Id>, users: set<Id>): (r: set<Id>)
    ensures r <= users
    ensures forall u :: u in r <==> u in ids && u in users
    ensures |r| <= |ids|
  {
    var r := set u | u in users && u in ids;
    DistinctBound(ids);
    SubsetSize(r, set u | u in ids);
    r
  }

  lemma SubsetSize(a: set<Id>, b: set<Id>)
    requires a <= b
    ensures |a| <= |b|
  {
    assert b == a + (b - a);
    assert a * (b - a) == {};
  }

  /** A sequence has at most as many distinct elements as it is long. */
  lemma {:induction false} DistinctBound(ids: seq<Id>)
    ensures |set u | u in ids| <= |ids|
    decreases |ids|
  {
    if ids != [] {
      DistinctBound(ids[1..]);
      assert (set u | u in ids) == (set u | u in ids[1..]) + {ids[0]};
    }
  }

  /** The membership a create or a replace asks for: none for a null list. */
  function Requested(ids: Option<seq<Id>>, users: set<Id>): (r: set<Id>)
    ensures r <= users
    ensures ids.None? || |ids.value| == 0 ==> r == {}
    ensures ids.Some? ==> forall u :: u in r <==> u in ids.value && u in users
  {
    match ids
    case None => {}
    case Some(list) => ValidUserIds(list, users)
  }

  /** `RemoveRange(owner.Links)`. */
  function Unlink(links: set<Link>, owner: Id): (r: set<Link>)
    ensures r <= links
    ensures MembersOf(r, owner) == {}
    ensures forall o :: o != owner ==> MembersOf(r, o) == MembersOf(links, o)
  {
    set l | l in links && l.owner != owner
  }

  /** The rows `AddRange` inserts for `owner`. */
  function LinksTo(owner: Id, ids: set<Id>): (r: set<Link>)
    ensures forall l :: l in r <==> l.owner == owner && l.user in ids
  {
    set u | u in ids :: Link(owner, u)
  }

  /** The join rows of the owners in `owners` (what a cascade keeps of a table): each
      surviving owner keeps all its members, and every other owner has none left. */
  function OwnedBy(links: set<Link>, owners: set<Id>): (r: set<Link>)
    ensures r <= links
    ensures forall l :: l in r ==> l.owner in owners
    ensures forall o :: MembersOf(r, o) == if o in owners then MembersOf(links, o) else {}
  {
    set l | l in links && l.owner in owners
  }

  /** The rows a user-delete cascade keeps: those of every other user. Each owner loses
      exactly that user from its members. */
  function UnlinkUser(links: set<Link>, user: Id): (r: set<Link>)
    ensures forall l :: l in r <==> l in links && l.user != user
    ensures forall o :: MembersOf(r, o) == MembersOf(links, o) - {user}
  {
    set l | l in links && l.user != user
  }

  /** Create semantics: with a non-empty list, one row for each requested id that is a
      user is added; otherwise nothing is. For an owner with no rows yet (a new project or
      task) the members become exactly the requested users; other owners keep theirs. */
  function Attach(links: set<Link>, owner: Id, ids: Option<seq<Id>>, users: set<Id>): (r: set<Link>)
    ensures r == links + LinksTo(owner, Requested(ids, users))
    ensures (forall l :: l in links ==> l.owner != owner) ==> MembersOf(r, owner) == Requested(ids, users)
    ensures forall o :: o != owner ==> MembersOf(r, o) == MembersOf(links, o)
    ensures forall l :: l in r ==> l in links || (l.owner == owner && l.user in users)
  {
    var r := if ids.Some? && |ids.value| > 0 then links + LinksTo(owner, ValidUserIds(ids.value, users)) else links;
    assert ids.None? || |ids.value| == 0 ==> LinksTo(owner, Requested(ids, users)) == {};
    if forall l :: l in links ==> l.owner != owner then
      AddedMembers(links, owner, Requested(ids, users)); r
    else
      OthersKept(links, owner, Requested(ids, users)); r
  }

  lemma OthersKept(links: set<Link>, owner: Id, ids: set<Id>)
    ensures forall o :: o != owner ==> MembersOf(links + LinksTo(owner, ids), o) == MembersOf(links, o)
  {
    forall o | o != owner ensures MembersOf(links + LinksTo(owner, ids), o) == MembersOf(links, o) {
      assert forall l :: l in links + LinksTo(owner, ids) && l.owner == o ==> l in links;
    }
  }

  /** Replace semantics: a null list leaves the rows alone; any list makes the owner's
      members exactly the requested users, and leaves every other owner's members. */
  function Replace(links: set<Link>, owner: Id, ids: Option<seq<Id>>, users: set<Id>): (r: set<Link>)
    ensures ids.None? ==> r == links
    ensures ids.Some? ==> MembersOf(r, owner) == Requested(ids, users)
    ensures forall o :: o != owner ==> MembersOf(r, o) == MembersOf(links, o)
    ensures forall l :: l in r && l.owner != owner ==> l in links
    ensures forall l :: l in r ==> l in links || (l.owner == owner && l.user in users)
  {
    match ids
    case None => links
    case Some(list) =>
      AddedMembers(Unlink(links, owner), owner, ValidUserIds(list, users));
      Unlink(links, owner) + LinksTo(owner, ValidUserIds(list, users))
  }

  /** Adding rows for an owner that had none gives it exactly those members. */
  lemma AddedMembers(links: set<Link>, owner: Id, ids: set<Id>)
    requires forall l :: l in links ==> l.owner != owner
    ensures MembersOf(links + LinksTo(owner, ids), owner) == ids
    ensures forall o :: o != owner ==> MembersOf(links + LinksTo(owner, ids), o) == MembersOf(links, o)
  {
    var r := links + LinksTo(owner, ids);
    forall u | u in ids ensures u in MembersOf(r, owner) {
      assert Link(owner, u) in r;
    }
    forall u | u in MembersOf(r, owner) ensures u in ids {
      var l :| l in r && l.owner == owner && l.user == u;
    }
    forall o | o != owner ensures MembersOf(r, o) == MembersOf(links, o) {
      forall u | u in MembersOf(r, o) ensures u in MembersOf(links, o) {
        var l :| l in r && l.owner == o && l.user == u;
        assert l in links;
      }
    }
  }

  /** Replacing twice with the same list is the same as replacing once. */
  lemma ReplaceIdempotent(links: set<Link>, owner: Id, ids: Option<seq<Id>>, users: set<Id>)
    ensures Replace(Replace(links, owner, ids, users), owner, ids, users) == Replace(links, owner, ids, users)
  {
    if ids.Some? {
      var once := Replace(links, owner, ids, users);
      assert Unlink(once, owner) == Unlink(links, owner);
    }
  }
}
