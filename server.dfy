/** The request handlers. Each handler reads its whole collection, changes
    it step by step as the handler does (`unshift`, assignment to a field of
    one element, `splice`) and writes it back; here the collection is a
    `seq` field of a store object and every handler is a method on it, proved
    to leave the collection and reply the corresponding function of module
    Comments or Rsvps prescribes. */
module Server {
  import opened Js
  import opened Http
  import Comments
  import Rsvps

  /** The comments file, `data/comments.json`, newest comment first. */
  class CommentStore {
    var comments: seq<Comments.Comment>

    /** The file is created holding `[]` when it does not exist. */
    constructor ()
      ensures comments == []
    {
      comments := [];
    }

    /** GET /api/comments: the whole collection, newest first. */
    method List() returns (r: seq<Comments.Comment>)
      ensures r == comments
    {
      r := comments;
    }

    /** POST /api/comments, with `id` the freshly generated UUID. */
    method Create(id: string, createdAt: string, name: Value, presence: Value, message: Value)
      returns (reply: Reply<Comments.Comment>)
      requires !Comments.Has(comments, id)
      modifies this
      ensures reply == Comments.Create(old(comments), id, createdAt, name, presence, message).reply
      ensures comments == Comments.Create(old(comments), id, createdAt, name, presence, message).store
      ensures Comments.Consistent(old(comments)) ==> Comments.Consistent(comments)
    {
      if !Truthy(name) || !Truthy(message) {
        return Failure(BAD_REQUEST, MISSING_DATA);
      }
      ghost var before := comments;
      var c := Comments.Comment(id, name, presence, message, Num(0), createdAt);
      comments := [c] + comments;
      reply := Success(CREATED, c);
      if Comments.Consistent(before) {
        Comments.CreatePreservesConsistent(before, id, createdAt, name, presence, message);
      }
    }

    /** POST /api/comments/:id/like */
    method Like(id: string) returns (reply: Reply<Comments.LikeBody>)
      modifies this
      ensures reply == Comments.Like(old(comments), id).reply
      ensures comments == Comments.Like(old(comments), id).store
      ensures Comments.Consistent(old(comments)) ==> Comments.Consistent(comments)
    {
      ghost var before := comments;
      var index := Comments.FindIndex(comments, id);
      if index == -1 {
        return Failure(NOT_FOUND, COMMENT_NOT_FOUND);
      }
      if !IsNumber(comments[index].likes) {
        comments := comments[index := comments[index].(likes := Num(0))];
      }
      comments := comments[index := comments[index].(likes := Num(comments[index].likes.n + 1))];
      reply := Success(OK, Comments.LikeBody(id, comments[index].likes.n));
      assert comments == before[index := before[index].(likes := Num(Comments.Bumped(before[index].likes)))];
      if Comments.Consistent(before) {
        Comments.LikePreservesConsistent(before, id);
      }
    }

    /** PUT /api/comments/:id */
    method Edit(id: string, name: Value, message: Value) returns (reply: Reply<Comments.Comment>)
      modifies this
      ensures reply == Comments.Edit(old(comments), id, name, message).reply
      ensures comments == Comments.Edit(old(comments), id, name, message).store
      ensures Comments.Consistent(old(comments)) ==> Comments.Consistent(comments)
    {
      ghost var before := comments;
      var index := Comments.FindIndex(comments, id);
      if index == -1 {
        return Failure(NOT_FOUND, COMMENT_NOT_FOUND);
      }
      ghost var edited := before[index].(message := Comments.Revised(before[index].message, message))
                                        .(name := Comments.Revised(before[index].name, name));
      if IsString(message) && Trim(message.s) != [] {
        comments := comments[index := comments[index].(message := Str(Trim(message.s)))];
      }
      if IsString(name) && Trim(name.s) != [] {
        comments := comments[index := comments[index].(name := Str(Trim(name.s)))];
      }
      assert comments == before[index := edited];
      reply := Success(OK, comments[index]);
      assert Comments.Edit(before, id, name, message) == Outcome(reply, comments);
      if Comments.Consistent(before) {
        Comments.EditPreservesConsistent(before, id, name, message);
      }
    }

    /** DELETE /api/comments/:id */
    method Delete(id: string) returns (reply: Reply<Comments.DeleteBody>)
      modifies this
      ensures reply == Comments.Delete(old(comments), id).reply
      ensures comments == Comments.Delete(old(comments), id).store
      ensures Comments.Consistent(old(comments)) ==> Comments.Consistent(comments)
    {
      ghost var before := comments;
      var index := Comments.FindIndex(comments, id);
      if index == -1 {
        return Failure(NOT_FOUND, COMMENT_NOT_FOUND);
      }
      var removed := comments[index];
      comments := comments[..index] + comments[index + 1..];
      reply := Success(OK, Comments.DeleteBody(true, removed.id));
      if Comments.Consistent(before) {
        Comments.DeletePreservesConsistent(before, id);
      }
    }
  }

  /** The RSVP file, `data/rsvp.json`, newest RSVP first. */
  class RsvpStore {
    var rsvps: seq<Rsvps.Rsvp>

    /** The file is created holding `[]` when it does not exist. */
    constructor ()
      ensures rsvps == []
    {
      rsvps := [];
    }

    /** GET /api/rsvp: the whole collection, newest first. */
    method List() returns (r: seq<Rsvps.Rsvp>)
      ensures r == rsvps
    {
      r := rsvps;
    }

    /** POST /api/rsvp, with `id` the freshly generated UUID. */
    method Create(id: string, createdAt: string, name: Value, presence: Value, guests: Value)
      returns (reply: Reply<Rsvps.Rsvp>)
      requires !Rsvps.Has(rsvps, id)
      modifies this
      ensures reply == Rsvps.Create(old(rsvps), id, createdAt, name, presence, guests).reply
      ensures rsvps == Rsvps.Create(old(rsvps), id, createdAt, name, presence, guests).store
      ensures Rsvps.Consistent(old(rsvps)) ==> Rsvps.Consistent(rsvps)
    {
      if !Truthy(name) || IsUndefined(presence) {
        return Failure(BAD_REQUEST, MISSING_DATA);
      }
      ghost var before := rsvps;
      var r := Rsvps.Rsvp(id, name, presence, Or(guests, Num(1)), createdAt);
      rsvps := [r] + rsvps;
      reply := Success(CREATED, r);
      if Rsvps.Consistent(before) {
        Rsvps.CreatePreservesConsistent(before, id, createdAt, name, presence, guests);
      }
    }
  }

  /** Three comments posted one after another come back newest first, and
      liking one of them twice counts two likes. */
  method GuestbookSession(a: string, b: string, c: string, t: string)
    requires a != b && b != c && a != c
  {
    var store := new CommentStore();
    var r := store.Create(a, t, Str("Ana"), Num(1), Str("Hola"));
    r := store.Create(b, t, Str("Luis"), Num(2), Str("Felicidades"));
    r := store.Create(c, t, Str("Eva"), Undefined, Str(" Nos vemos "));
    var ca := Comments.Comment(a, Str("Ana"), Num(1), Str("Hola"), Num(0), t);
    var cb := Comments.Comment(b, Str("Luis"), Num(2), Str("Felicidades"), Num(0), t);
    var cc := Comments.Comment(c, Str("Eva"), Undefined, Str(" Nos vemos "), Num(0), t);
    assert store.comments == [cc, cb, ca];

    assert Comments.FindIndex(store.comments, b) == 1;
    var l := store.Like(b);
    assert l == Success(OK, Comments.LikeBody(b, 1));
    assert store.comments == [cc, cb.(likes := Num(1)), ca];
    assert Comments.FindIndex(store.comments, b) == 1;
    l := store.Like(b);
    assert l == Success(OK, Comments.LikeBody(b, 2));
  }

  /** A blank edit keeps the message, and a second delete of the same id
      finds nothing. */
  method EditDeleteSession(a: string, b: string, t: string)
    requires a != b
  {
    var store := new CommentStore();
    var r := store.Create(a, t, Str("Ana"), Num(1), Str("Hola"));
    r := store.Create(b, t, Str("Luis"), Num(2), Str("Felicidades"));
    var ca := Comments.Comment(a, Str("Ana"), Num(1), Str("Hola"), Num(0), t);
    var cb := Comments.Comment(b, Str("Luis"), Num(2), Str("Felicidades"), Num(0), t);
    assert store.comments == [cb, ca];

    assert Comments.FindIndex(store.comments, a) == 1;
    assert Trim("   ") == [];
    var e := store.Edit(a, Undefined, Str("   "));
    assert e == Success(OK, ca);

    assert Comments.FindIndex(store.comments, b) == 0;
    var d := store.Delete(b);
    assert d == Success(OK, Comments.DeleteBody(true, b));
    assert store.comments == [ca];
    d := store.Delete(b);
    assert d == Failure(NOT_FOUND, COMMENT_NOT_FOUND);
  }
}
