/**
 * The Users table of the identity store, as values: a map from user id to
 * record, and the sequence of ids giving the table's row order. The
 * functions here are the store's lookups (by id, by user name), its
 * listing and the removal of rows; the service class builds on them.
 *
 * Lookups by user name go through the framework's key normalizer
 * (`norm`): a name is found when its normalized form equals the normalized
 * form of a stored user name. The default normalizer upper-cases, so the
 * lookup ignores case; the model leaves the normalizer a parameter.
 */
module IdentityStore {

  import opened Wrappers
  import opened UserModel

  /** No id occurs twice in the row order. */
  predicate Distinct(ids: seq<string>)
  {
    forall i, j :: 0 <= i < j < |ids| ==> ids[i] != ids[j]
  }

  /** Normalized user names are unique across the table. The framework's
      user manager maintains this; the moderation code relies on it for
      lookups by name. */
  predicate UniqueNames(users: map<string, User>, norm: string -> string)
  {
    forall a, b {:trigger norm(users[a].userName), norm(users[b].userName)} ::
      a in users && b in users && norm(users[a].userName) == norm(users[b].userName) ==> a == b
  }

  /** The row order lists exactly the ids of the table, each once. */
  ghost predicate WellFormed(users: map<string, User>, order: seq<string>, norm: string -> string)
  {
    && Distinct(order)
    && (forall id :: id in order <==> id in users)
    && UniqueNames(users, norm)
  }

  /** Lookup by user name: the first row, in row order, whose normalized
      user name is that of `name`, or None when there is none. */
  function FirstWithName(ids: seq<string>, users: map<string, User>, norm: string -> string, name: string): (r: Option<string>)
    requires forall id :: id in ids ==> id in users
    ensures r.Some? ==> r.value in ids && norm(users[r.value].userName) == norm(name)
    ensures r.None? ==> forall id :: id in ids ==> norm(users[id].userName) != norm(name)
  {
    if ids == [] then None
    else if norm(users[ids[0]].userName) == norm(name) then Some(ids[0])
    else FirstWithName(ids[1..], users, norm, name)
  }

  /** Under unique normalized names, looking up any spelling of an
      account's name that normalizes like it finds that account. */
  lemma FirstWithNameUnique(users: map<string, User>, order: seq<string>, norm: string -> string, id: string, name: string)
    requires WellFormed(users, order, norm)
    requires id in users && norm(name) == norm(users[id].userName)
    ensures FirstWithName(order, users, norm, name) == Some(id)
  {
    assert id in order;
  }

  /** The lookup depends only on the normalized form of the name asked for:
      two spellings that normalize alike (with the default normalizer,
      "alice" and "Alice") find the same row. */
  lemma {:induction false} LookupIgnoresSpelling(ids: seq<string>, users: map<string, User>, norm: string -> string, a: string, b: string)
    requires forall id :: id in ids ==> id in users
    requires norm(a) == norm(b)
    ensures FirstWithName(ids, users, norm, a) == FirstWithName(ids, users, norm, b)
  {
    if ids != [] {
      LookupIgnoresSpelling(ids[1..], users, norm, a, b);
    }
  }

  /** The records of the rows listed by `ids`, in that order. */
  function Rows(ids: seq<string>, users: map<string, User>): (r: seq<User>)
    requires forall id :: id in ids ==> id in users
    ensures |r| == |ids|
    ensures forall k :: 0 <= k < |ids| ==> r[k] == users[ids[k]]
  {
    if ids == [] then [] else [users[ids[0]]] + Rows(ids[1..], users)
  }

  /** A sequence without repetitions has as many elements as its set. */
  lemma {:induction false} DistinctCardinality(ids: seq<string>)
    requires Distinct(ids)
    ensures |set id | id in ids| == |ids|
  {
    if ids != [] {
      var rest := ids[1..];
      assert Distinct(rest) by {
        forall i, j | 0 <= i < j < |rest| ensures rest[i] != rest[j] {
          assert rest[i] == ids[i + 1] && rest[j] == ids[j + 1];
        }
      }
      DistinctCardinality(rest);
      assert ids[0] !in rest by {
        forall k | 0 <= k < |rest| ensures rest[k] != ids[0] {
          assert rest[k] == ids[k + 1];
        }
      }
      assert (set id | id in ids) == (set id | id in rest) + {ids[0]} by {
        assert ids == [ids[0]] + rest;
      }
    }
  }

  /** The number of rows of a well-formed table is the length of its row order. */
  lemma TableSize(users: map<string, User>, order: seq<string>, norm: string -> string)
    requires WellFormed(users, order, norm)
    ensures |users| == |order|
  {
    DistinctCardinality(order);
    assert users.Keys == set id | id in order;
  }

  /** The row order after removing the rows whose ids are in `gone`. */
  function Filter(ids: seq<string>, gone: set<string>): (r: seq<string>)
    ensures forall id :: id in r <==> id in ids && id !in gone
    ensures Distinct(ids) ==> Distinct(r)
    ensures |r| <= |ids|
  {
    if ids == [] then []
    else if ids[0] in gone then Filter(ids[1..], gone)
    else [ids[0]] + Filter(ids[1..], gone)
  }

  /** Removing no rows keeps the row order. */
  lemma {:induction false} FilterNothing(ids: seq<string>)
    ensures Filter(ids, {}) == ids
  {
    if ids != [] {
      FilterNothing(ids[1..]);
      assert ids == [ids[0]] + ids[1..];
    }
  }

  /** Removing rows one batch after another is removing their union. */
  lemma {:induction false} FilterTwice(ids: seq<string>, a: set<string>, b: set<string>)
    ensures Filter(Filter(ids, a), b) == Filter(ids, a + b)
  {
    if ids != [] {
      FilterTwice(ids[1..], a, b);
      if ids[0] !in a {
        assert Filter(ids, a) == [ids[0]] + Filter(ids[1..], a);
        assert Filter(ids, a)[1..] == Filter(ids[1..], a);
      }
    }
  }

  /** Any two elements of `r` stand in the same order in `ids`. */
  ghost predicate KeepsOrder(r: seq<string>, ids: seq<string>)
  {
    forall i, j :: 0 <= i < j < |r| ==>
      exists a, b :: 0 <= a < b < |ids| && ids[a] == r[i] && ids[b] == r[j]
  }

  /** Removing rows keeps the surviving rows in their order. */
  lemma {:induction false} FilterKeepsOrder(ids: seq<string>, gone: set<string>)
    ensures KeepsOrder(Filter(ids, gone), ids)
  {
    if ids != [] {
      var tail := ids[1..];
      var rt := Filter(tail, gone);
      var r := Filter(ids, gone);
      FilterKeepsOrder(tail, gone);
      forall i, j | 0 <= i < j < |r|
        ensures exists a, b :: 0 <= a < b < |ids| && ids[a] == r[i] && ids[b] == r[j]
      {
        if ids[0] in gone {
          assert r == rt;
          var a, b :| 0 <= a < b < |tail| && tail[a] == rt[i] && tail[b] == rt[j];
          assert ids[a + 1] == r[i] && ids[b + 1] == r[j];
        } else {
          assert r == [ids[0]] + rt;
          if i == 0 {
            assert r[j] == rt[j - 1] && rt[j - 1] in tail;
            var c :| 0 <= c < |tail| && tail[c] == rt[j - 1];
            assert ids[0] == r[0] && ids[c + 1] == r[j];
          } else {
            assert r[i] == rt[i - 1] && r[j] == rt[j - 1];
            var a, b :| 0 <= a < b < |tail| && tail[a] == rt[i - 1] && tail[b] == rt[j - 1];
            assert ids[a + 1] == r[i] && ids[b + 1] == r[j];
          }
        }
      }
    }
  }

  /** Removing rows keeps every surviving row and the table well formed. */
  lemma RemoveRowsWellFormed(users: map<string, User>, order: seq<string>, norm: string -> string, gone: set<string>)
    requires WellFormed(users, order, norm)
    ensures WellFormed(users - gone, Filter(order, gone), norm)
  {
  }
}
