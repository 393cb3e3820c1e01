/**
 * The user-moderation service: listing, blocking, unblocking and deleting
 * accounts, the visit-date update, the blocked check, and the self-logout
 * guard that ends the requester's own session when a batch targets their
 * account.
 *
 * The service's state is the database context (the tracked Users table and
 * what was last committed) and the requester's sign-in state:
 *   users    -- the tracked table, id to record, with pending changes applied
 *   order    -- the row order of the tracked table
 *   saved    -- the table as of the last commit
 *   commits  -- how many commits the service has issued
 *   signedIn -- whether the requester's session is still signed in
 * and the framework's user-name normalizer, fixed when the service is made.
 */
module Services {

  import opened Wrappers
  import opened UserModel
  import opened Session
  import opened IdentityStore

  /** The ids of a batch. */
  function Ids(ids: seq<string>): set<string>
  {
    set id | id in ids
  }

  /** Taking one more id of a batch. */
  lemma PrefixStep(ids: seq<string>, k: nat)
    requires k < |ids|
    ensures ids[..k + 1] == ids[..k] + [ids[k]]
    ensures ids[..k + 1][..k] == ids[..k]
    ensures Ids(ids[..k + 1]) == Ids(ids[..k]) + {ids[k]}
  {
    assert ids[..k + 1] == ids[..k] + [ids[k]];
  }

  /** The table after setting isBlocked to `flag` on every id of the batch
      that resolves; ids that do not resolve add nothing. */
  function Flagged(users: map<string, User>, ids: seq<string>, flag: bool): (r: map<string, User>)
    ensures r.Keys == users.Keys
    ensures forall id :: id in r && id in ids ==> r[id].isBlocked == flag
    ensures forall id :: id in r ==> r[id].(isBlocked := users[id].isBlocked) == users[id]
    ensures forall id :: id in r && id !in ids ==> r[id] == users[id]
  {
    map id | id in users :: if id in ids then users[id].(isBlocked := flag) else users[id]
  }

  /** Blocking and unblocking keep the table's unique normalized names. */
  lemma FlaggedKeepsUniqueNames(users: map<string, User>, ids: seq<string>, flag: bool, norm: string -> string)
    requires UniqueNames(users, norm)
    ensures UniqueNames(Flagged(users, ids, flag), norm)
  {
  }

  /** Extending a batch by one id flags that id, if it resolves, on top of
      the shorter batch's table. */
  lemma FlaggedSnoc(users: map<string, User>, ids: seq<string>, id: string, flag: bool)
    ensures var before := Flagged(users, ids, flag);
      Flagged(users, ids + [id], flag) ==
        if id in users then before[id := before[id].(isBlocked := flag)] else before
  {
    var before := Flagged(users, ids, flag);
    var after := Flagged(users, ids + [id], flag);
    var step := if id in users then before[id := before[id].(isBlocked := flag)] else before;
    forall x | x in users ensures after[x] == step[x] {
      assert x in ids + [id] <==> x in ids || x == id;
    }
    assert after.Keys == step.Keys;
  }

  /** Some id of the batch resolves to an account whose user name passes
      the self-logout guard for requester `p`, scanning the batch in order
      as the loop does. */
  predicate SelfTargeted(p: Principal, users: map<string, User>, ids: seq<string>)
  {
    if ids == [] then false
    else
      var last := ids[|ids| - 1];
      SelfTargeted(p, users, ids[..|ids| - 1]) || (last in users && IsSelf(p, users[last].userName))
  }

  /** The resolved id `ids[i]` passes the self-logout guard. */
  predicate TargetsSelf(p: Principal, users: map<string, User>, ids: seq<string>, i: int)
    requires 0 <= i < |ids|
  {
    ids[i] in users && IsSelf(p, users[ids[i]].userName)
  }

  /** The guard fires somewhere in the batch exactly when one of its ids
      resolves to the requester's own account. */
  lemma {:induction false} SelfTargetedExists(p: Principal, users: map<string, User>, ids: seq<string>)
    ensures SelfTargeted(p, users, ids) <==> exists i :: 0 <= i < |ids| && TargetsSelf(p, users, ids, i)
  {
    if ids != [] {
      var init := ids[..|ids| - 1];
      SelfTargetedExists(p, users, init);
      if exists i :: 0 <= i < |init| && TargetsSelf(p, users, init, i) {
        var i :| 0 <= i < |init| && TargetsSelf(p, users, init, i);
        assert TargetsSelf(p, users, ids, i);
      }
      if TargetsSelf(p, users, ids, |ids| - 1) {
        assert exists i :: 0 <= i < |ids| && TargetsSelf(p, users, ids, i);
      }
      if exists i :: 0 <= i < |ids| && TargetsSelf(p, users, ids, i) {
        var i :| 0 <= i < |ids| && TargetsSelf(p, users, ids, i);
        if i < |init| {
          assert TargetsSelf(p, users, init, i);
        }
      }
    }
  }

  /** Under unique normalized user names, a batch ends the requester's
      session exactly when the requester is authenticated under a name, the
      account that name looks up is one of the batch's ids, and that
      account's user name equals the requester's name exactly (the guard
      compares ordinally, the lookup by normalized form). */
  lemma SelfTargetedIffOwnAccount(p: Principal, users: map<string, User>, order: seq<string>, norm: string -> string, ids: seq<string>)
    requires WellFormed(users, order, norm)
    ensures SelfTargeted(p, users, ids) <==>
      && p.identity.Some?
      && p.identity.value.isAuthenticated
      && p.identity.value.name.Some?
      && var own := FirstWithName(order, users, norm, p.identity.value.name.value);
         own.Some? && own.value in ids && users[own.value].userName == p.identity.value.name.value
  {
    SelfTargetedExists(p, users, ids);
    if SelfTargeted(p, users, ids) {
      var i :| 0 <= i < |ids| && TargetsSelf(p, users, ids, i);
      FirstWithNameUnique(users, order, norm, ids[i], users[ids[i]].userName);
    }
    if p.identity.Some? && p.identity.value.isAuthenticated && p.identity.value.name.Some? {
      var own := FirstWithName(order, users, norm, p.identity.value.name.value);
      if own.Some? && own.value in ids && users[own.value].userName == p.identity.value.name.value {
        var i :| 0 <= i < |ids| && ids[i] == own.value;
        assert TargetsSelf(p, users, ids, i);
      }
    }
  }

  /** A batch whose resolved ids all belong to other accounts than the
      requester's never ends the requester's session. */
  lemma OtherAccountsKeepSession(p: Principal, users: map<string, User>, ids: seq<string>)
    requires forall i :: 0 <= i < |ids| && ids[i] in users ==> !IsSelf(p, users[ids[i]].userName)
    ensures !SelfTargeted(p, users, ids)
  {
    SelfTargetedExists(p, users, ids);
  }

  /** A batch of unknown ids leaves the table as it was and cannot end the
      requester's session. */
  lemma UnknownBatchChangesNothing(p: Principal, users: map<string, User>, ids: seq<string>, flag: bool)
    requires forall i :: 0 <= i < |ids| ==> ids[i] !in users
    ensures Flagged(users, ids, flag) == users
    ensures !SelfTargeted(p, users, ids)
  {
    SelfTargetedExists(p, users, ids);
  }

  /** Blocking a batch and then unblocking it leaves every targeted account
      unblocked and everything else as before; it restores an account
      exactly when that account was not blocked to begin with. */
  lemma BlockThenUnblock(users: map<string, User>, ids: seq<string>)
    ensures Flagged(Flagged(users, ids, true), ids, false) == Flagged(users, ids, false)
    ensures forall id :: id in users ==>
      (Flagged(Flagged(users, ids, true), ids, false)[id] == users[id] <==> id !in ids || !users[id].isBlocked)
  {
  }

  /** One iteration of the delete loop: removing the next id from the table
      and the row order left by the ids before it gives the table and row
      order left by the longer prefix, and the self-logout guard of the
      longer prefix is that of the shorter one or that of the new id. */
  lemma DeleteStep(p: Principal, tracked: map<string, User>, rowOrder: seq<string>, ids: seq<string>, k: nat)
    requires k < |ids|
    ensures (tracked - Ids(ids[..k])) - {ids[k]} == tracked - Ids(ids[..k + 1])
    ensures Filter(Filter(rowOrder, Ids(ids[..k])), {ids[k]}) == Filter(rowOrder, Ids(ids[..k + 1]))
    ensures SelfTargeted(p, tracked, ids[..k + 1]) ==
      (SelfTargeted(p, tracked, ids[..k]) || (ids[k] in tracked && IsSelf(p, tracked[ids[k]].userName)))
  {
    PrefixStep(ids, k);
    FilterTwice(rowOrder, Ids(ids[..k]), {ids[k]});
  }

  /** The table left by the delete loop is well formed and holds none of
      the batch's ids. */
  lemma DeletedTable(tracked: map<string, User>, rowOrder: seq<string>, norm: string -> string, ids: seq<string>)
    requires WellFormed(tracked, rowOrder, norm)
    ensures WellFormed(tracked - Ids(ids), Filter(rowOrder, Ids(ids)), norm)
    ensures forall i :: 0 <= i < |ids| ==> ids[i] !in tracked - Ids(ids)
  {
    RemoveRowsWellFormed(tracked, rowOrder, norm, Ids(ids));
  }

  class UserService {
    var users: map<string, User>
    var order: seq<string>
    var saved: map<string, User>
    var commits: nat
    var signedIn: bool
    const normalize: string -> string

    /** The table is well formed, and between calls nothing is pending: the
        tracked table is the committed one, which the listing and the
        lookups read. */
    ghost predicate Valid()
      reads this
    {
      WellFormed(users, order, normalize) && saved == users
    }

    /** A service over a committed table, for a requester who is or is not
        signed in, with the framework's user-name normalizer. */
    constructor (table: map<string, User>, rowOrder: seq<string>, requesterSignedIn: bool, normalizer: string -> string)
      requires WellFormed(table, rowOrder, normalizer)
      ensures Valid()
      ensures users == table && order == rowOrder && saved == table
      ensures commits == 0 && signedIn == requesterSignedIn && normalize == normalizer
    {
      users, order, saved := table, rowOrder, table;
      commits, signedIn := 0, requesterSignedIn;
      normalize := normalizer;
    }

    /** Every account in the store, each once, in row order. */
    function GetUsersInList(): (r: seq<User>)
      reads this
      requires Valid()
      ensures |r| == |users| == |order|
      ensures forall u :: u in r <==> u in users.Values
      ensures forall k :: 0 <= k < |r| ==> r[k] == users[order[k]]
    {
      TableSize(users, order, normalize);
      var r := Rows(order, users);
      assert forall u :: u in users.Values ==> u in r by {
        forall u | u in users.Values ensures u in r {
          var id :| id in users && users[id] == u;
          var k :| 0 <= k < |order| && order[k] == id;
          assert r[k] == u;
        }
      }
      r
    }

    /** The framework's lookup by user name, which compares normalized names. */
    function FindByName(username: string): (r: Option<string>)
      reads this
      requires Valid()
      ensures r.Some? ==> r.value in users && normalize(users[r.value].userName) == normalize(username)
      ensures r.None? ==> forall id :: id in users ==> normalize(users[id].userName) != normalize(username)
    {
      FirstWithName(order, users, normalize, username)
    }

    /** The stored flag of the account whose name normalizes like
        `username`; an unknown name counts as not blocked. */
    function IsUserBlocked(username: string): (b: bool)
      reads this
      requires Valid()
      ensures b <==> exists id :: id in users && normalize(users[id].userName) == normalize(username) && users[id].isBlocked
      ensures (forall id :: id in users ==> normalize(users[id].userName) != normalize(username)) ==> !b
    {
      match FindByName(username)
      case Some(id) => users[id].isBlocked
      case None => false
    }

    /** The single commit that ends every batch: the tracked table becomes
        the committed one. */
    method SaveChanges()
      modifies this`saved, this`commits
      ensures saved == users && commits == old(commits) + 1
    {
      saved := users;
      commits := commits + 1;
    }

    /** The self-logout guard: the requester is signed out when their
        identity is present, authenticated and named `username`; otherwise
        nothing changes. */
    method LogoutInactiveUserIfHeOnline(username: string, p: Principal)
      modifies this`signedIn
      ensures signedIn == (old(signedIn) && !IsSelf(p, username))
      ensures IsSelf(p, username) ==> !signedIn
      ensures !IsSelf(p, username) ==> signedIn == old(signedIn)
    {
      if IsSelf(p, username) {
        signedIn := false;
      }
    }

    /** Blocks every id of the batch that resolves, skips the others, signs
        the requester out when one of the blocked accounts is their own, and
        commits once after the whole batch. */
    method BlockUsersById(ids: seq<string>, p: Principal)
      requires Valid()
      modifies this`users, this`saved, this`commits, this`signedIn
      ensures Valid()
      ensures users == Flagged(old(users), ids, true)
      ensures order == old(order)
      ensures signedIn == (old(signedIn) && !SelfTargeted(p, old(users), ids))
      ensures saved == users && commits == old(commits) + 1
    {
      for k := 0 to |ids|
        invariant users == Flagged(old(users), ids[..k], true)
        modifies this`users, this`signedIn  // the loop itself never commits
        invariant signedIn == (old(signedIn) && !SelfTargeted(p, old(users), ids[..k]))
      {
        var id := ids[k];
        assert ids[..k + 1] == ids[..k] + [id];
        FlaggedSnoc(old(users), ids[..k], id, true);
        assert ids[..k + 1][..k] == ids[..k];
        if id !in users {
          continue;
        }
        users := users[id := users[id].(isBlocked := true)];
        LogoutInactiveUserIfHeOnline(users[id].userName, p);
      }
      assert ids[..|ids|] == ids;
      FlaggedKeepsUniqueNames(old(users), ids, true, normalize);
      SaveChanges();
    }

    /** Unblocks every id of the batch that resolves, skips the others, and
        commits once after the whole batch; the requester's session is not
        touched. */
    method UnblockUsersById(ids: seq<string>)
      requires Valid()
      modifies this`users, this`saved, this`commits
      ensures Valid()
      ensures users == Flagged(old(users), ids, false)
      ensures order == old(order) && signedIn == old(signedIn)
      ensures saved == users && commits == old(commits) + 1
    {
      for k := 0 to |ids|
        invariant users == Flagged(old(users), ids[..k], false)
        modifies this`users  // the loop itself never commits
      {
        var id := ids[k];
        assert ids[..k + 1] == ids[..k] + [id];
        FlaggedSnoc(old(users), ids[..k], id, false);
        if id !in users {
          continue;
        }
        users := users[id := users[id].(isBlocked := false)];
      }
      assert ids[..|ids|] == ids;
      FlaggedKeepsUniqueNames(old(users), ids, false, normalize);
      SaveChanges();
    }

    /** Deletes every account of the batch, signs the requester out when one
        of them is their own, and commits once after the whole batch. Every
        id must resolve: the lookup result is used without a check. A
        removed account stays tracked until the commit, so a repeated id
        resolves again and its second removal changes nothing. */
    method DeleteUsersById(ids: seq<string>, p: Principal)
      requires Valid()
      requires forall i :: 0 <= i < |ids| ==> ids[i] in users
      modifies this`users, this`order, this`saved, this`commits, this`signedIn
      ensures Valid()
      ensures users == old(users) - Ids(ids)
      ensures order == Filter(old(order), Ids(ids))
      ensures forall i :: 0 <= i < |ids| ==> ids[i] !in users
      ensures signedIn == (old(signedIn) && !SelfTargeted(p, old(users), ids))
      ensures saved == users && commits == old(commits) + 1
    {
      var tracked := users;
      FilterNothing(order);
      assert Ids(ids[..0]) == {};
      assert users == tracked - {};
      for k := 0 to |ids|
        invariant users == tracked - Ids(ids[..k])
        invariant order == Filter(old(order), Ids(ids[..k]))
        modifies this`users, this`order, this`signedIn  // the loop itself never commits
        invariant signedIn == (old(signedIn) && !SelfTargeted(p, tracked, ids[..k]))
      {
        var id := ids[k];
        DeleteStep(p, tracked, old(order), ids, k);
        var userToDelete := tracked[id];
        users := users - {id};
        order := Filter(order, {id});
        LogoutInactiveUserIfHeOnline(userToDelete.userName, p);
      }
      assert ids[..|ids|] == ids;
      DeletedTable(tracked, old(order), normalize, ids);
      SaveChanges();
    }

    /** Sets the visit date of the account whose name normalizes like
        `username` and commits; an unknown name changes nothing and commits
        nothing. */
    method UpdateLastVisitDate(username: string, newVisitDate: int)
      requires Valid()
      modifies this`users, this`saved, this`commits
      ensures Valid()
      ensures order == old(order) && signedIn == old(signedIn)
      ensures (forall id :: id in old(users) ==> normalize(old(users)[id].userName) != normalize(username)) ==>
        users == old(users) && saved == old(saved) && commits == old(commits)
      ensures forall id :: id in old(users) && normalize(old(users)[id].userName) == normalize(username) ==>
        && users == old(users)[id := old(users)[id].(lastVisitDate := newVisitDate)]
        && saved == users && commits == old(commits) + 1
    {
      var user := FindByName(username);
      if user.None? {
        return;
      }
      var id := user.value;
      users := users[id := users[id].(lastVisitDate := newVisitDate)];
      SaveChanges();
    }
  }

  /** Directory with accounts A and B (blocked or not); a requester other than A
      blocks A together with an unknown id: A ends blocked, B is unchanged,
      nothing raises, the session stays, and there is exactly one commit. */
  method BlockScenario(s: UserService, a: string, b: string, unknown: string, p: Principal)
    requires s.Valid()
    requires a in s.users && b in s.users && a != b && unknown !in s.users
    requires !IsSelf(p, s.users[a].userName)
    modifies s
    ensures s.users.Keys == old(s.users.Keys)
    ensures s.users[a].isBlocked && s.users[b] == old(s.users[b])
    ensures s.signedIn == old(s.signedIn)
    ensures s.commits == old(s.commits) + 1
  {
    OtherAccountsKeepSession(p, s.users, [a, unknown]);
    s.BlockUsersById([a, unknown], p);
  }

  /** Two successive visit updates leave the second date. */
  method VisitTwice(s: UserService, username: string, t1: int, t2: int)
    requires s.Valid()
    requires exists id :: id in s.users && s.normalize(s.users[id].userName) == s.normalize(username)
    modifies s
    ensures forall id :: id in s.users && s.normalize(s.users[id].userName) == s.normalize(username) ==>
      s.users[id].lastVisitDate == t2
    ensures s.commits == old(s.commits) + 2
  {
    s.UpdateLastVisitDate(username, t1);
    s.UpdateLastVisitDate(username, t2);
  }

  /** After a delete no later operation brings a deleted id back: blocking,
      unblocking and visit updates never add an id to the table. */
  method DeleteIsFinal(s: UserService, ids: seq<string>, p: Principal, username: string, t: int)
    requires s.Valid()
    requires forall i :: 0 <= i < |ids| ==> ids[i] in s.users
    modifies s
    ensures forall i :: 0 <= i < |ids| ==> ids[i] !in s.users
  {
    s.DeleteUsersById(ids, p);
    s.BlockUsersById(ids, p);
    s.UnblockUsersById(ids);
    s.UpdateLastVisitDate(username, t);
  }
}
