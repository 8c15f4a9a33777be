/** The guestbook comments collection and what each comment handler does to
    it, as functions from the collection read from disk to the reply and the
    collection written back. The collection is kept newest first. */
module Comments {
  import opened Js
  import opened Http

  /** One stored comment. `id` and `createdAt` are assigned by the server;
      the other fields hold whatever JSON value the client sent (or, for
      `likes`, whatever the file holds). */
  datatype Comment = Comment(
    id: string,
    name: Value,
    presence: Value,
    message: Value,
    likes: Value,
    createdAt: string)

  /** Body of a successful like: `{ id, likes }`. */
  datatype LikeBody = LikeBody(id: string, likes: int)

  /** Body of a successful delete: `{ deleted: true, id }`. */
  datatype DeleteBody = DeleteBody(deleted: bool, id: string)

  /** Some comment in `s` has this id. */
  predicate Has(s: seq<Comment>, id: string) {
    exists j :: 0 <= j < |s| && s[j].id == id
  }

  /** `comments.findIndex(c => c.id === id)`: the position of the first
      comment with that id, or -1 when there is none. */
  function FindIndex(s: seq<Comment>, id: string): (r: int)
    ensures -1 <= r < |s|
    ensures r == -1 <==> !Has(s, id)
    ensures 0 <= r ==> s[r].id == id && forall j :: 0 <= j < r ==> s[j].id != id
  {
    if |s| == 0 then -1
    else if s[0].id == id then 0
    else
      var k := FindIndex(s[1..], id);
      assert forall j :: 1 <= j < |s| ==> s[1..][j - 1] == s[j];
      if k == -1 then -1 else k + 1
  }

  /** POST /api/comments. `name` and `message` only have to be truthy: they
      are stored as sent, untrimmed. `id` and `createdAt` stand for the
      generated UUID and the current time. */
  function Create(s: seq<Comment>, id: string, createdAt: string,
                  name: Value, presence: Value, message: Value): (out: Outcome<Comment, Comment>)
    ensures out.reply.Failure? <==> !Truthy(name) || !Truthy(message)
    ensures out.reply.Failure? ==>
      out.reply == Failure(BAD_REQUEST, MISSING_DATA) && out.store == s
    ensures out.reply.Success? ==>
      out.reply.status == CREATED &&
      out.reply.body == Comment(id, name, presence, message, Num(0), createdAt) &&
      |out.store| == |s| + 1 && out.store[0] == out.reply.body && out.store[1..] == s
  {
    if !Truthy(name) || !Truthy(message) then
      Outcome(Failure(BAD_REQUEST, MISSING_DATA), s)
    else
      var c := Comment(id, name, presence, message, Num(0), createdAt);
      Outcome(Success(CREATED, c), [c] + s)
  }

  /** The counter after one like: a stored number plus one; anything that
      is not a number is first reset to 0. */
  function Bumped(likes: Value): (n: int)
    ensures n == 1 + (if IsNumber(likes) then likes.n else 0)
    ensures IsNumber(likes) && likes.n >= 0 ==> n > likes.n
  {
    if IsNumber(likes) then likes.n + 1 else 1
  }

  /** POST /api/comments/:id/like: the first comment with that id gets one
      more like and nothing else changes. */
  function Like(s: seq<Comment>, id: string): (out: Outcome<Comment, LikeBody>)
    ensures !Has(s, id) ==> out == Outcome(Failure(NOT_FOUND, COMMENT_NOT_FOUND), s)
    ensures Has(s, id) ==>
      var i := FindIndex(s, id);
      var n := Bumped(s[i].likes);
      out.reply == Success(OK, LikeBody(id, n)) &&
      |out.store| == |s| &&
      out.store[i] == s[i].(likes := Num(n)) &&
      forall j :: 0 <= j < |s| && j != i ==> out.store[j] == s[j]
  {
    var i := FindIndex(s, id);
    if i == -1 then
      Outcome(Failure(NOT_FOUND, COMMENT_NOT_FOUND), s)
    else
      var n := Bumped(s[i].likes);
      Outcome(Success(OK, LikeBody(id, n)), s[i := s[i].(likes := Num(n))])
  }

  /** The value a field holds after an edit: the trimmed new value when one
      was sent as a string that is not blank, the current value otherwise. */
  function Revised(current: Value, given: Value): (r: Value)
    ensures r == current || (given.Str? && r == Str(Trim(given.s)) && Truthy(r))
  {
    if IsString(given) && Trim(given.s) != [] then Str(Trim(given.s)) else current
  }

  /** PUT /api/comments/:id: `message` and `name` of the first comment with
      that id are revised; its id, presence, likes and timestamp, and every
      other comment, stay as they were. The reply is the updated comment. */
  function Edit(s: seq<Comment>, id: string, name: Value, message: Value): (out: Outcome<Comment, Comment>)
    ensures !Has(s, id) ==> out == Outcome(Failure(NOT_FOUND, COMMENT_NOT_FOUND), s)
    ensures Has(s, id) ==>
      var i := FindIndex(s, id);
      |out.store| == |s| &&
      out.reply == Success(OK, out.store[i]) &&
      out.store[i].id == s[i].id == id &&
      out.store[i].presence == s[i].presence &&
      out.store[i].likes == s[i].likes &&
      out.store[i].createdAt == s[i].createdAt &&
      out.store[i].message == Revised(s[i].message, message) &&
      out.store[i].name == Revised(s[i].name, name) &&
      forall j :: 0 <= j < |s| && j != i ==> out.store[j] == s[j]
  {
    var i := FindIndex(s, id);
    if i == -1 then
      Outcome(Failure(NOT_FOUND, COMMENT_NOT_FOUND), s)
    else
      var c := s[i].(message := Revised(s[i].message, message)).(name := Revised(s[i].name, name));
      Outcome(Success(OK, c), s[i := c])
  }

  /** DELETE /api/comments/:id: the first comment with that id is spliced
      out; the others keep their order. */
  function Delete(s: seq<Comment>, id: string): (out: Outcome<Comment, DeleteBody>)
    ensures !Has(s, id) ==> out == Outcome(Failure(NOT_FOUND, COMMENT_NOT_FOUND), s)
    ensures Has(s, id) ==>
      var i := FindIndex(s, id);
      out.reply == Success(OK, DeleteBody(true, id)) &&
      |out.store| == |s| - 1 &&
      (forall j :: 0 <= j < i ==> out.store[j] == s[j]) &&
      (forall j :: i < j < |s| ==> out.store[j - 1] == s[j])
  {
    var i := FindIndex(s, id);
    if i == -1 then
      Outcome(Failure(NOT_FOUND, COMMENT_NOT_FOUND), s)
    else
      Outcome(Success(OK, DeleteBody(true, s[i].id)), s[..i] + s[i + 1..])
  }

  // ---------------------------------------------------------------------
  // Invariants of the collection

  /** No two comments share an id. */
  predicate UniqueIds(s: seq<Comment>) {
    forall i, j :: 0 <= i < j < |s| ==> s[i].id != s[j].id
  }

  /** What every comment in the model's collection satisfies once the
      collection is built by the operations alone: a truthy name and message
      and a counter that is a non-negative number. (The file can hold a
      falsy name when a number that overflows to `Infinity` is sent and the
      write stores it as `null`; that case is outside this model.) */
  predicate WellFormed(c: Comment) {
    Truthy(c.name) && Truthy(c.message) && c.likes.Num? && c.likes.n >= 0
  }

  predicate Consistent(s: seq<Comment>) {
    UniqueIds(s) && forall i :: 0 <= i < |s| ==> WellFormed(s[i])
  }

  /** A revised field that was truthy stays truthy. */
  lemma RevisedKeepsTruthy(current: Value, given: Value)
    requires Truthy(current)
    ensures Truthy(Revised(current, given))
  {
  }

  /** Creating with a fresh id keeps the collection consistent. */
  lemma CreatePreservesConsistent(s: seq<Comment>, id: string, createdAt: string,
                                  name: Value, presence: Value, message: Value)
    requires Consistent(s)
    requires !Has(s, id)
    ensures Consistent(Create(s, id, createdAt, name, presence, message).store)
  {
    var t := Create(s, id, createdAt, name, presence, message).store;
    if t != s {
      forall i, j | 0 <= i < j < |t| ensures t[i].id != t[j].id {
        assert t[j] == s[j - 1];
        if i > 0 { assert t[i] == s[i - 1]; }
      }
      forall i | 0 <= i < |t| ensures WellFormed(t[i]) {
        if i > 0 { assert t[i] == s[i - 1]; }
      }
    }
  }

  /** Liking keeps the collection consistent: ids are untouched and the
      counter only grows. */
  lemma LikePreservesConsistent(s: seq<Comment>, id: string)
    requires Consistent(s)
    ensures Consistent(Like(s, id).store)
  {
    var t := Like(s, id).store;
    if Has(s, id) {
      var i := FindIndex(s, id);
      assert forall j :: 0 <= j < |t| ==> t[j].id == s[j].id;
      forall j | 0 <= j < |t| ensures WellFormed(t[j]) {
        assert WellFormed(s[j]);
      }
    }
  }

  /** Editing keeps the collection consistent. */
  lemma EditPreservesConsistent(s: seq<Comment>, id: string, name: Value, message: Value)
    requires Consistent(s)
    ensures Consistent(Edit(s, id, name, message).store)
  {
    var t := Edit(s, id, name, message).store;
    if Has(s, id) {
      var i := FindIndex(s, id);
      assert forall j :: 0 <= j < |t| ==> t[j].id == s[j].id;
      forall j | 0 <= j < |t| ensures WellFormed(t[j]) {
        assert WellFormed(s[j]);
        if j == i {
          RevisedKeepsTruthy(s[i].message, message);
          RevisedKeepsTruthy(s[i].name, name);
        }
      }
    }
  }

  /** Deleting keeps the collection consistent. */
  lemma DeletePreservesConsistent(s: seq<Comment>, id: string)
    requires Consistent(s)
    ensures Consistent(Delete(s, id).store)
  {
    var t := Delete(s, id).store;
    if Has(s, id) {
      var i := FindIndex(s, id);
      // Position j of the result holds the comment from position Src(j).
      assert forall j :: 0 <= j < |t| ==> t[j] == s[if j < i then j else j + 1];
    }
  }

  /** With unique ids, a successful delete leaves no comment with that id,
      and it removed exactly one. */
  lemma DeleteRemovesId(s: seq<Comment>, id: string)
    requires UniqueIds(s)
    requires Has(s, id)
    ensures !Has(Delete(s, id).store, id)
    ensures multiset(Delete(s, id).store) + multiset{s[FindIndex(s, id)]} == multiset(s)
  {
    var i := FindIndex(s, id);
    var t := Delete(s, id).store;
    assert t == s[..i] + s[i + 1..];
    assert s == s[..i] + [s[i]] + s[i + 1..];
    forall j | 0 <= j < |t| ensures t[j].id != id {
      if j < i {
        assert t[j] == s[j];
      } else {
        assert t[j] == s[j + 1];
      }
    }
  }

  // ---------------------------------------------------------------------
  // Properties relating several requests

  /** Comments come back newest first: creating A, then B, then C puts C,
      B, A in front of what was there. */
  lemma NewestFirst(s: seq<Comment>, a: Comment, b: Comment, c: Comment)
    requires Truthy(a.name) && Truthy(a.message)
    requires Truthy(b.name) && Truthy(b.message)
    requires Truthy(c.name) && Truthy(c.message)
    ensures
      var s1 := Create(s, a.id, a.createdAt, a.name, a.presence, a.message).store;
      var s2 := Create(s1, b.id, b.createdAt, b.name, b.presence, b.message).store;
      var s3 := Create(s2, c.id, c.createdAt, c.name, c.presence, c.message).store;
      s3 == [c.(likes := Num(0))] + [b.(likes := Num(0))] + [a.(likes := Num(0))] + s
  {
    var s1 := Create(s, a.id, a.createdAt, a.name, a.presence, a.message).store;
    var s2 := Create(s1, b.id, b.createdAt, b.name, b.presence, b.message).store;
    var s3 := Create(s2, c.id, c.createdAt, c.name, c.presence, c.message).store;
    assert s1 == [a.(likes := Num(0))] + s;
    assert s2 == [b.(likes := Num(0))] + s1;
    assert s3 == [c.(likes := Num(0))] + s2;
  }

  /** Deleting the comment just created gives back the collection as it was
      before the create. */
  lemma DeleteUndoesCreate(s: seq<Comment>, id: string, createdAt: string,
                           name: Value, presence: Value, message: Value)
    requires Truthy(name) && Truthy(message)
    ensures
      var created := Create(s, id, createdAt, name, presence, message);
      var deleted := Delete(created.store, id);
      deleted.reply == Success(OK, DeleteBody(true, id)) && deleted.store == s
  {
    var t := Create(s, id, createdAt, name, presence, message).store;
    assert t[0].id == id;
    assert FindIndex(t, id) == 0;
  }

  /** `n` likes of the same id, one request after another. */
  function LikeTimes(s: seq<Comment>, id: string, n: nat): (r: seq<Comment>)
    ensures |r| == |s|
    decreases n
  {
    if n == 0 then s else LikeTimes(Like(s, id).store, id, n - 1)
  }

  /** One like of the comment at position `i`, the first with that id. */
  lemma LikeFirstMatch(s: seq<Comment>, id: string, i: nat)
    requires i < |s| && s[i].id == id && forall j :: 0 <= j < i ==> s[j].id != id
    requires s[i].likes.Num?
    ensures Like(s, id).store == s[i := s[i].(likes := Num(s[i].likes.n + 1))]
  {
    assert Has(s, id);
    assert FindIndex(s, id) == i;
  }

  /** Liking the comment at position `i` (the first with that id) n times
      adds exactly n to a numeric counter and changes nothing else. */
  lemma {:induction false} LikeTimesAdds(s: seq<Comment>, id: string, i: nat, n: nat)
    requires i < |s| && s[i].id == id && forall j :: 0 <= j < i ==> s[j].id != id
    requires s[i].likes.Num?
    ensures |LikeTimes(s, id, n)| == |s|
    ensures LikeTimes(s, id, n)[i] == s[i].(likes := Num(s[i].likes.n + n))
    ensures forall j :: 0 <= j < |s| && j != i ==> LikeTimes(s, id, n)[j] == s[j]
    decreases n
  {
    if n > 0 {
      LikeFirstMatch(s, id, i);
      LikeTimesAdds(Like(s, id).store, id, i, n - 1);
    }
  }

  /** A new comment liked n times has exactly n likes. */
  lemma CreatedThenLikedTimes(s: seq<Comment>, id: string, createdAt: string,
                              name: Value, presence: Value, message: Value, n: nat)
    requires Truthy(name) && Truthy(message)
    ensures |LikeTimes(Create(s, id, createdAt, name, presence, message).store, id, n)| == |s| + 1
    ensures LikeTimes(Create(s, id, createdAt, name, presence, message).store, id, n)[0].likes == Num(n)
  {
    var t := Create(s, id, createdAt, name, presence, message).store;
    LikeTimesAdds(t, id, 0, n);
  }

  /** An edit is idempotent: sending the same edit twice leaves the same
      collection and the same reply as sending it once. */
  lemma EditIdempotent(s: seq<Comment>, id: string, name: Value, message: Value)
    ensures
      var once := Edit(s, id, name, message);
      Edit(once.store, id, name, message) == once
  {
    var once := Edit(s, id, name, message);
    if Has(s, id) {
      var i := FindIndex(s, id);
      assert forall j :: 0 <= j < |s| ==> once.store[j].id == s[j].id;
      assert FindIndex(once.store, id) == i;
      assert once.store[i := once.store[i]] == once.store;
    }
  }

  /** A field is replaced exactly when the value sent is a string with a
      character that is not whitespace, and then by that string trimmed. */
  lemma RevisedIff(current: Value, given: Value)
    ensures given.Str? && !AllWhitespace(given.s) ==> Revised(current, given) == Str(Trim(given.s))
    ensures !(given.Str? && !AllWhitespace(given.s)) ==> Revised(current, given) == current
  {
    if given.Str? {
      TrimEmptyIff(given.s);
    }
  }

  /** An edit whose name and message are both missing, not strings, or
      blank changes nothing and replies with the comment as stored. */
  lemma BlankEditChangesNothing(s: seq<Comment>, id: string, name: Value, message: Value)
    requires Has(s, id)
    requires !name.Str? || AllWhitespace(name.s)
    requires !message.Str? || AllWhitespace(message.s)
    ensures Edit(s, id, name, message) == Outcome(Success(OK, s[FindIndex(s, id)]), s)
  {
    var i := FindIndex(s, id);
    RevisedIff(s[i].name, name);
    RevisedIff(s[i].message, message);
    assert s[i].(message := s[i].message).(name := s[i].name) == s[i];
    assert s[i := s[i]] == s;
  }
}
