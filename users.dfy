/** The `users` table: one row per registration, holding the face descriptor
    captured at sign-up (convex/users.ts, row shape from convex/schema.ts). */
module Users {
  import opened Db

  /** A face descriptor as stored. The backend never looks inside it: it is
      stored at registration and handed back unchanged. */
  type Descriptor = seq<real>

  /** A row of `users`. `userId` is the identity provider's subject id;
      `createdAt` is the wall-clock time the caller supplies. */
  datatype User = User(
    id: DocId,
    name: string,
    userId: string,
    personId: string,
    faceDescriptor: Descriptor,
    createdAt: int)

  /** An entry of the gallery returned by `getAllFaceDescriptors`. */
  datatype FaceEntry = FaceEntry(id: DocId, name: string, personId: string, descriptor: Descriptor)

  /** Rows are kept in insertion order, so their ids strictly increase. */
  predicate Chronological(rows: seq<User>)
  {
    forall i, j :: 0 <= i < j < |rows| ==> rows[i].id < rows[j].id
  }

  /** Every id handed out so far lies below the table's id counter. */
  predicate IdsBelow(rows: seq<User>, n: DocId)
  {
    forall i :: 0 <= i < |rows| ==> rows[i].id < n
  }

  /** The in-memory `users` table: its rows in insertion order and the counter
      from which fresh document ids are drawn. */
  class UsersTable {
    var rows: seq<User>
    var nextId: DocId

    ghost predicate Valid()
      reads this
    {
      Chronological(rows) && IdsBelow(rows, nextId)
    }

    constructor ()
      ensures Valid() && rows == []
    {
      rows := [];
      nextId := 0;
    }

    /** `registerUser`: insert one row unconditionally and return its id.
        There is no check for an existing row with the same `userId`. */
    method RegisterUser(name: string, userId: string, personId: string, faceDescriptor: Descriptor, now: int)
      returns (id: DocId)
      requires Valid()
      modifies this
      ensures Valid()
      ensures rows == old(rows) + [User(id, name, userId, personId, faceDescriptor, now)]
      ensures forall i :: 0 <= i < |old(rows)| ==> old(rows)[i].id < id
      ensures id == old(nextId) && nextId == id + 1
    {
      id := nextId;
      rows := rows + [User(id, name, userId, personId, faceDescriptor, now)];
      nextId := nextId + 1;
    }
  }

  /** `getAllUsers`: `collect()` without an order, which is ascending creation
      order, so every row exactly once, oldest first. */
  function AllUsers(rows: seq<User>): (r: seq<User>)
    ensures |r| == |rows|
    ensures forall i :: 0 <= i < |rows| ==> r[i] == rows[i]
  {
    rows
  }

  /** `getUserByClerkId`: the first row, oldest first, whose `userId` is `clerkId`. */
  function UserByClerkId(rows: seq<User>, clerkId: string): (r: Option<User>)
    ensures r.None? <==> forall i :: 0 <= i < |rows| ==> rows[i].userId != clerkId
    ensures r.Some? ==>
      exists i :: 0 <= i < |rows| && rows[i] == r.value && r.value.userId == clerkId &&
        forall j :: 0 <= j < i ==> rows[j].userId != clerkId
  {
    if |rows| == 0 then None
    else if rows[0].userId == clerkId then Some(rows[0])
    else
      var r := UserByClerkId(rows[1..], clerkId);
      assert forall i :: 1 <= i < |rows| ==> rows[i] == rows[1..][i - 1];
      r
  }

  /** The gallery entry that `getAllFaceDescriptors` builds from one row. */
  function EntryOf(u: User): FaceEntry
  {
    FaceEntry(u.id, u.name, u.personId, u.faceDescriptor)
  }

  /** `getAllFaceDescriptors`: one entry per row, in table order, each carrying
      the row's document id, name, `personId` and descriptor unchanged. */
  function FaceDescriptors(rows: seq<User>): (r: seq<FaceEntry>)
    ensures |r| == |rows|
    ensures forall i :: 0 <= i < |rows| ==>
      r[i].id == rows[i].id && r[i].name == rows[i].name &&
      r[i].personId == rows[i].personId && r[i].descriptor == rows[i].faceDescriptor
  {
    if |rows| == 0 then []
    else [EntryOf(rows[0])] + FaceDescriptors(rows[1..])
  }

  /** How many rows carry the given `userId`. */
  function UserIdCount(rows: seq<User>, clerkId: string): (n: nat)
    ensures n <= |rows|
    ensures n == 0 <==> forall i :: 0 <= i < |rows| ==> rows[i].userId != clerkId
  {
    if |rows| == 0 then 0
    else
      var last := |rows| - 1;
      UserIdCount(rows[..last], clerkId) + (if rows[last].userId == clerkId then 1 else 0)
  }

  /** `registerUser` performs no duplicate check: every registration adds one
      row with its `userId`, whatever the table already holds. */
  lemma UserIdCountAppend(rows: seq<User>, u: User, clerkId: string)
    ensures UserIdCount(rows + [u], clerkId) == UserIdCount(rows, clerkId) + (if u.userId == clerkId then 1 else 0)
  {
    assert (rows + [u])[..|rows|] == rows;
  }

  /** A lookup after an insert: an older match still wins; otherwise the new
      row is found exactly when it carries the id asked for. */
  lemma {:induction false} UserByClerkIdAppend(rows: seq<User>, u: User, clerkId: string)
    ensures UserByClerkId(rows + [u], clerkId) ==
      if UserByClerkId(rows, clerkId).Some? then UserByClerkId(rows, clerkId)
      else if u.userId == clerkId then Some(u)
      else None
  {
    if |rows| > 0 {
      assert (rows + [u])[1..] == rows[1..] + [u];
      UserByClerkIdAppend(rows[1..], u, clerkId);
    }
  }

  /** Registering a `userId` that is not yet in the table makes
      `getUserByClerkId` return the new row. */
  lemma LookupAfterRegister(rows: seq<User>, u: User)
    requires forall i :: 0 <= i < |rows| ==> rows[i].userId != u.userId
    ensures UserByClerkId(rows + [u], u.userId) == Some(u)
  {
    UserByClerkIdAppend(rows, u, u.userId);
  }

  /** Registering the same `userId` twice leaves two rows with it, and the
      lookup keeps returning the older one. */
  lemma RegisterTwiceKeepsBoth(rows: seq<User>, u1: User, u2: User)
    requires u1.userId == u2.userId
    requires forall i :: 0 <= i < |rows| ==> rows[i].userId != u1.userId
    ensures UserIdCount(rows + [u1] + [u2], u1.userId) == 2
    ensures UserByClerkId(rows + [u1] + [u2], u1.userId) == Some(u1)
  {
    assert (rows + [u1] + [u2])[..|rows| + 1] == rows + [u1];
    assert (rows + [u1])[..|rows|] == rows;
    UserByClerkIdAppend(rows, u1, u1.userId);
    UserByClerkIdAppend(rows + [u1], u2, u1.userId);
  }

  /** After an insert, the gallery gains exactly the new row's entry at the end. */
  lemma {:induction false} FaceDescriptorsAppend(rows: seq<User>, u: User)
    ensures FaceDescriptors(rows + [u]) == FaceDescriptors(rows) + [EntryOf(u)]
  {
    if |rows| > 0 {
      assert (rows + [u])[1..] == rows[1..] + [u];
      FaceDescriptorsAppend(rows[1..], u);
    }
  }

  /** Over a well-formed table the gallery's ids are distinct. */
  lemma FaceDescriptorIdsDistinct(rows: seq<User>)
    requires Chronological(rows)
    ensures forall i, j :: 0 <= i < j < |rows| ==> FaceDescriptors(rows)[i].id != FaceDescriptors(rows)[j].id
  {
  }
}
