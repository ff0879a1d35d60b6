/** The optimistic add, update and delete mutations over the cached user list (the `['users']`
    query entry): the record builders, the list producers each phase applies, and the cache the
    phases act on. The remote calls themselves are abstract: each mutation is handed the
    `Outcome` of its request. */
module UsersHooks {
  import opened Wrappers
  import opened Types
  import Seqs
  import Text

  /** The create form's fields (`CreateUserPayload`). */
  datatype CreatePayload = CreatePayload(name: string, email: string, phone: string, company: string)

  /** The edit form's fields plus the id of the edited record (`UpdateUserPayload`). */
  datatype UpdatePayload = UpdatePayload(id: int, name: string, email: string, phone: string, company: string)

  /** The record a create or update request answers with. A field the service leaves out is
      the empty string (JavaScript treats `undefined` and `''` alike in `||`); the address is
      absent when the reply has none. */
  datatype Reply = Reply(
    id: int,
    name: string,
    username: string,
    email: string,
    phone: string,
    website: string,
    address: Option<Address>,
    company: Company)

  /** What `onMutate` of the add mutation hands to `onSuccess` and `onError`. */
  datatype AddContext = AddContext(previousUsers: Option<seq<User>>, tempUser: User)

  /** `a || b` on strings. */
  function Or(a: string, b: string): string
  {
    if a != "" then a else b
  }

  /** The username derived from a display name: lower-cased, white space removed. */
  function Username(name: string): (r: string)
    ensures forall k :: 0 <= k < |r| ==> !Text.IsSpace(r[k])
    ensures forall c :: c in r <==> c in Text.Lower(name) && !Text.IsSpace(c)
    ensures forall c :: multiset(r)[c] == if Text.IsSpace(c) then 0 else multiset(Text.Lower(name))[c]
    ensures Seqs.IsSubsequence(r, Text.Lower(name))
  {
    Text.RemoveSpaces(Text.Lower(name))
  }

  // ------------------------------------------------------------------ add

  /** The optimistic record for a create, stamped with the negated clock reading `now`. */
  function TempUser(p: CreatePayload, now: int): (t: User)
    ensures t.id == -now && (now > 0 ==> t.id < 0)
    ensures t.name == p.name && t.email == p.email && t.phone == p.phone
    ensures t.username == Username(p.name)
    ensures t.website == "" && t.address == EmptyAddress
    ensures t.company == Company(p.company, "", "")
  {
    User(-now, p.name, Username(p.name), p.email, p.phone, "", EmptyAddress,
         Company(p.company, "", ""))
  }

  /** The record `onSuccess` of the add mutation builds from the reply: the reply's fields,
      with phone and company name from the form, catch phrase and bs from the optimistic
      record, and address, website and username from the reply when it has them. */
  function MergeAdd(reply: Reply, p: CreatePayload, temp: User): (u: User)
    ensures u.id == reply.id && u.name == reply.name && u.email == reply.email
    ensures u.phone == p.phone && u.company.name == p.company
    ensures u.company.catchPhrase == temp.company.catchPhrase && u.company.bs == temp.company.bs
    ensures u.address == (if reply.address.Some? then reply.address.value else temp.address)
    ensures u.website == (if reply.website != "" then reply.website else temp.website)
    ensures u.username == (if reply.username != "" then reply.username else temp.username)
  {
    User(reply.id, reply.name,
         Or(reply.username, Or(temp.username, "")),
         reply.email, p.phone,
         Or(reply.website, Or(temp.website, "")),
         reply.address.GetOr(temp.address),
         Company(p.company, Or(temp.company.catchPhrase, ""), Or(temp.company.bs, "")))
  }

  /** `old.map((user) => (user.id === id ? u : user))`. */
  function ReplaceById(rows: seq<User>, id: int, u: User): (r: seq<User>)
    ensures |r| == |rows|
    ensures forall k :: 0 <= k < |rows| && rows[k].id == id ==> r[k] == u
    ensures forall k :: 0 <= k < |rows| && rows[k].id != id ==> r[k] == rows[k]
  {
    Seqs.Map(rows, (user: User) => if user.id == id then u else user)
  }

  /** The producer of the add mutation's `onSuccess`: with a non-zero temporary id every record
      carrying it becomes the merged record; with a zero one (JavaScript's falsy `-0`) the merged
      record is prepended. */
  function ReconcileAdd(rows: seq<User>, tempId: int, merged: User): (r: seq<User>)
    ensures tempId != 0 ==> |r| == |rows|
    ensures tempId != 0 ==> forall k :: 0 <= k < |rows| && rows[k].id == tempId ==> r[k] == merged
    ensures tempId != 0 ==> forall k :: 0 <= k < |rows| && rows[k].id != tempId ==> r[k] == rows[k]
    ensures tempId == 0 ==> |r| == |rows| + 1 && r[0] == merged && r[1..] == rows
  {
    if tempId != 0 then ReplaceById(rows, tempId, merged) else [merged] + rows
  }

  /** When no earlier record shares the temporary id, success swaps the optimistic record for
      the merged one in place, at the front, leaving the rest as it was. */
  lemma AddSucceedsInPlace(rows: seq<User>, temp: User, merged: User)
    requires temp.id != 0
    requires forall k :: 0 <= k < |rows| ==> rows[k].id != temp.id
    ensures ReconcileAdd([temp] + rows, temp.id, merged) == [merged] + rows
  {
    var r := ReconcileAdd([temp] + rows, temp.id, merged);
    assert forall k :: 0 < k < |r| ==> ([temp] + rows)[k] == rows[k - 1];
  }

  /** An earlier record that happens to share the temporary id is overwritten too: nothing
      keeps ids unique. */
  lemma AddSuccessOverwritesSharedId(rows: seq<User>, temp: User, merged: User, k: nat)
    requires temp.id != 0 && k < |rows| && rows[k].id == temp.id
    ensures ReconcileAdd([temp] + rows, temp.id, merged)[k + 1] == merged
  {
    assert ([temp] + rows)[k + 1] == rows[k];
  }

  /** With a clock reading of 0 the temporary id is falsy, and success leaves the optimistic
      record behind the merged one. */
  lemma AddSuccessAtTimeZero(rows: seq<User>, p: CreatePayload, reply: Reply)
    ensures var temp := TempUser(p, 0);
      ReconcileAdd([temp] + rows, temp.id, MergeAdd(reply, p, temp)) == [MergeAdd(reply, p, temp), temp] + rows
  {
    var temp := TempUser(p, 0);
    PrependAtIdZero(rows, temp, MergeAdd(reply, p, temp));
  }

  /** With a falsy temporary id the merged record goes in front of the whole list. */
  lemma PrependAtIdZero(rows: seq<User>, temp: User, merged: User)
    requires temp.id == 0
    ensures ReconcileAdd([temp] + rows, temp.id, merged) == [merged, temp] + rows
  {
    assert [merged, temp] + rows == [merged] + ([temp] + rows);
  }

  // ------------------------------------------------------------------ update

  /** The optimistic edit of one record: the form's name, email, phone and company name;
      everything else, catch phrase and bs included, kept. */
  function Patch(user: User, p: UpdatePayload): (u: User)
    ensures u.id == user.id && u.username == user.username && u.website == user.website
    ensures u.address == user.address
    ensures u.name == p.name && u.email == p.email && u.phone == p.phone
    ensures u.company == user.company.(name := p.company)
  {
    user.(name := p.name, email := p.email, phone := p.phone,
          company := user.company.(name := p.company))
  }

  /** The producer of the update mutation's `onMutate`. */
  function PatchById(rows: seq<User>, p: UpdatePayload): (r: seq<User>)
    ensures |r| == |rows|
    ensures forall k :: 0 <= k < |rows| && rows[k].id == p.id ==> r[k] == Patch(rows[k], p)
    ensures forall k :: 0 <= k < |rows| && rows[k].id != p.id ==> r[k] == rows[k]
  {
    Seqs.Map(rows, (user: User) => if user.id == p.id then Patch(user, p) else user)
  }

  /** The record the update mutation's `onSuccess` builds for the cached record `user`. */
  function MergeUpdate(user: User, reply: Reply, p: UpdatePayload): (u: User)
    ensures u.id == reply.id && u.name == reply.name && u.email == reply.email
    ensures u.phone == p.phone && u.company.name == p.company
    ensures u.company.catchPhrase == user.company.catchPhrase && u.company.bs == user.company.bs
    ensures u.address == (if reply.address.Some? then reply.address.value else user.address)
    ensures u.website == (if reply.website != "" then reply.website else user.website)
    ensures u.username == (if reply.username != "" then reply.username else user.username)
  {
    User(reply.id, reply.name,
         Or(reply.username, Or(user.username, "")),
         reply.email, p.phone,
         Or(reply.website, Or(user.website, "")),
         reply.address.GetOr(user.address),
         Company(p.company, Or(user.company.catchPhrase, ""), Or(user.company.bs, "")))
  }

  /** The producer of the update mutation's `onSuccess`: records whose id is the reply's id are
      merged, all others kept. */
  function ReconcileUpdate(rows: seq<User>, reply: Reply, p: UpdatePayload): (r: seq<User>)
    ensures |r| == |rows|
    ensures forall k :: 0 <= k < |rows| && rows[k].id == reply.id ==>
      r[k] == MergeUpdate(rows[k], reply, p)
    ensures forall k :: 0 <= k < |rows| && rows[k].id != reply.id ==> r[k] == rows[k]
  {
    Seqs.Map(rows, (user: User) => if user.id == reply.id then MergeUpdate(user, reply, p) else user)
  }

  /** A successful update leaves the edited record with the form's phone and company name
      whatever the reply said, and keeps the catch phrase and bs the record had before the
      edit. */
  lemma UpdateKeepsFormFields(rows: seq<User>, p: UpdatePayload, reply: Reply, k: nat)
    requires reply.id == p.id && k < |rows| && rows[k].id == p.id
    ensures var r := ReconcileUpdate(PatchById(rows, p), reply, p);
      r[k].phone == p.phone && r[k].company.name == p.company
      && r[k].company.catchPhrase == rows[k].company.catchPhrase
      && r[k].company.bs == rows[k].company.bs
      && r[k].id == p.id
  {
    var patched := PatchById(rows, p);
    assert patched[k] == Patch(rows[k], p);
  }

  // ------------------------------------------------------------------ delete

  /** The producer of the delete mutation's `onMutate`. */
  function RemoveById(rows: seq<User>, id: int): (r: seq<User>)
    ensures forall u: User :: u in r ==> u.id != id
    ensures forall u: User :: u.id != id ==> multiset(r)[u] == multiset(rows)[u]
    ensures Seqs.IsSubsequence(r, rows)
  {
    Seqs.FilterIsSubsequence(rows, (user: User) => user.id != id);
    Seqs.FilterCounts(rows, (user: User) => user.id != id);
    Seqs.Filter(rows, (user: User) => user.id != id)
  }

  // ------------------------------------------------------------------ rollback

  /** `onError` of every mutation: the snapshot comes back when there was one. */
  function Rollback(current: Option<seq<User>>, previousUsers: Option<seq<User>>): (r: Option<seq<User>>)
    ensures previousUsers.Some? ==> r == previousUsers
    ensures previousUsers.None? ==> r == current
  {
    if previousUsers.Some? then previousUsers else current
  }

  /** The react-query cache entry `['users']`. `users` is `None` until the list is fetched. */
  class UsersCache {
    var users: Option<seq<User>>

    /** The list the producers start from: `(old = []) => …`. */
    function Rows(): seq<User>
      reads this
    {
      users.GetOr([])
    }

    constructor (initial: Option<seq<User>>)
      ensures users == initial
    {
      users := initial;
    }

    /** `onMutate` of the add mutation: snapshot, then prepend the optimistic record. */
    method AddMutate(p: CreatePayload, now: int) returns (ctx: AddContext)
      modifies this
      ensures ctx == AddContext(old(users), TempUser(p, now))
      ensures users == Some([ctx.tempUser] + old(Rows()))
    {
      ctx := AddContext(users, TempUser(p, now));
      users := Some([ctx.tempUser] + Rows());
    }

    /** `onSuccess` of the add mutation. */
    method AddSuccess(reply: Reply, p: CreatePayload, ctx: AddContext)
      modifies this
      ensures users == Some(ReconcileAdd(old(Rows()), ctx.tempUser.id, MergeAdd(reply, p, ctx.tempUser)))
    {
      users := Some(ReconcileAdd(Rows(), ctx.tempUser.id, MergeAdd(reply, p, ctx.tempUser)));
    }

    /** `onMutate` of the update mutation. */
    method UpdateMutate(p: UpdatePayload) returns (previousUsers: Option<seq<User>>)
      modifies this
      ensures previousUsers == old(users)
      ensures users == Some(PatchById(old(Rows()), p))
    {
      previousUsers := users;
      users := Some(PatchById(Rows(), p));
    }

    /** `onSuccess` of the update mutation. */
    method UpdateSuccess(reply: Reply, p: UpdatePayload)
      modifies this
      ensures users == Some(ReconcileUpdate(old(Rows()), reply, p))
    {
      users := Some(ReconcileUpdate(Rows(), reply, p));
    }

    /** `onMutate` of the delete mutation; the mutation has no success step. */
    method DeleteMutate(id: int) returns (previousUsers: Option<seq<User>>)
      modifies this
      ensures previousUsers == old(users)
      ensures users == Some(RemoveById(old(Rows()), id))
    {
      previousUsers := users;
      users := Some(RemoveById(Rows(), id));
    }

    /** `onError` of any of the three mutations. */
    method Restore(previousUsers: Option<seq<User>>)
      modifies this
      ensures users == Rollback(old(users), previousUsers)
    {
      users := Rollback(users, previousUsers);
    }

    /** A whole add, when no other mutation interleaves with it. */
    method AddUser(p: CreatePayload, now: int, outcome: Outcome<Reply>)
      modifies this
      ensures outcome.Err? && old(users).Some? ==> users == old(users)
      ensures outcome.Err? && old(users).None? ==> users == Some([TempUser(p, now)])
      ensures outcome.Ok? ==> var temp := TempUser(p, now);
        users == Some(ReconcileAdd([temp] + old(Rows()), temp.id, MergeAdd(outcome.value, p, temp)))
    {
      ghost var before := Rows();
      var ctx := AddMutate(p, now);
      assert users.value == [ctx.tempUser] + before;
      assert ctx.previousUsers.None? ==> users.value == [ctx.tempUser];
      match outcome
      case Ok(reply) => AddSuccess(reply, p, ctx);
      case Err => Restore(ctx.previousUsers);
    }

    /** A whole update, when no other mutation interleaves with it. */
    method UpdateUser(p: UpdatePayload, outcome: Outcome<Reply>)
      modifies this
      ensures outcome.Err? && old(users).Some? ==> users == old(users)
      ensures outcome.Err? && old(users).None? ==> users == Some([])
      ensures outcome.Ok? ==> users == Some(ReconcileUpdate(PatchById(old(Rows()), p), outcome.value, p))
    {
      var previousUsers := UpdateMutate(p);
      match outcome
      case Ok(reply) => UpdateSuccess(reply, p);
      case Err => Restore(previousUsers);
    }

    /** A whole delete, when no other mutation interleaves with it. */
    method DeleteUser(id: int, outcome: Outcome<()>)
      modifies this
      ensures outcome.Err? && old(users).Some? ==> users == old(users)
      ensures outcome.Err? && old(users).None? ==> users == Some([])
      ensures outcome.Ok? ==> users == Some(RemoveById(old(Rows()), id))
    {
      var previousUsers := DeleteMutate(id);
      if outcome.Err? {
        Restore(previousUsers);
      }
    }
  }

  /** The snapshot is the whole list. When a second add starts while a first is pending and
      the first then fails, its rollback also drops the second's optimistic record, so the
      second's success finds nothing to replace and its record never appears. */
  lemma InterleavedAddsLoseTheSecond(rows: seq<User>, a: CreatePayload, b: CreatePayload,
                                     t1: int, t2: int, replyB: Reply)
    requires t2 != 0
    requires forall k :: 0 <= k < |rows| ==> rows[k].id != -t2
    ensures var tempB := TempUser(b, t2);
      var both := [tempB, TempUser(a, t1)] + rows;
      var afterFailure := Rollback(Some(both), Some(rows));
      ReconcileAdd(afterFailure.GetOr([]), tempB.id, MergeAdd(replyB, b, tempB)) == rows
  {
    var tempB := TempUser(b, t2);
    var r := ReplaceById(rows, tempB.id, MergeAdd(replyB, b, tempB));
    assert forall k :: 0 <= k < |rows| ==> r[k] == rows[k];
  }

  /** The rollback an add evidently intends: drop only its own optimistic record from the
      list as it now stands, rather than restoring the whole snapshot. */
  function RollbackOwnAdd(current: Option<seq<User>>, tempId: int): (r: Option<seq<User>>)
    ensures r.Some? <==> current.Some?
    ensures r.Some? ==> forall u: User :: u in r.value ==> u.id != tempId
    ensures r.Some? ==> Seqs.IsSubsequence(r.value, current.value)
    ensures r.Some? ==> forall u: User :: u.id != tempId ==> multiset(r.value)[u] == multiset(current.value)[u]
  {
    match current
    case None => None
    case Some(rows) => Some(RemoveById(rows, tempId))
  }

  /** With that rollback, a first add failing while a second is pending leaves the second's
      record in place, and the second's success then shows its merged record; nothing else
      left in the list carries the failed add's temporary id. */
  lemma InterleavedAddsKeepTheSecond(rows: seq<User>, a: CreatePayload, b: CreatePayload,
                                     t1: int, t2: int, replyB: Reply)
    requires t1 != t2 && t2 != 0
    ensures var tempA, tempB := TempUser(a, t1), TempUser(b, t2);
      var merged := MergeAdd(replyB, b, tempB);
      var afterFailure := RollbackOwnAdd(Some([tempB, tempA] + rows), tempA.id);
      var r := ReconcileAdd(afterFailure.value, tempB.id, merged);
      merged in r && forall j :: 0 <= j < |r| && r[j] != merged ==> r[j].id != tempA.id
  {
    var tempA, tempB := TempUser(a, t1), TempUser(b, t2);
    KeepsSecond(rows, tempA, tempB, MergeAdd(replyB, b, tempB));
  }

  /** Removing the first record's id keeps the second, which its success then replaces. */
  lemma KeepsSecond(rows: seq<User>, tempA: User, tempB: User, merged: User)
    requires tempA.id != tempB.id && tempB.id != 0
    ensures var r := ReconcileAdd(RemoveById([tempB, tempA] + rows, tempA.id), tempB.id, merged);
      merged in r && forall j :: 0 <= j < |r| && r[j] != merged ==> r[j].id != tempA.id
  {
    var full := [tempB, tempA] + rows;
    var kept := RemoveById(full, tempA.id);
    assert full[0] == tempB;
    assert multiset(kept)[tempB] == multiset(full)[tempB] > 0;
    var k :| 0 <= k < |kept| && kept[k] == tempB;
    var r := ReconcileAdd(kept, tempB.id, merged);
    assert r[k] == merged;
    forall j | 0 <= j < |r| && r[j] != merged
      ensures r[j].id != tempA.id
    {
      assert kept[j] in kept;
    }
  }
}
