/** The RSVP (attendance confirmation) collection and its one write
    operation, kept newest first. RSVPs are never edited or deleted. */
module Rsvps {
  import opened Js
  import opened Http

  datatype Rsvp = Rsvp(
    id: string,
    name: Value,
    presence: Value,
    guests: Value,
    createdAt: string)

  /** `guests || 1`: the number of guests as sent when it is truthy, 1
      otherwise. A negative number or a string is kept as it is. */
  function GuestsOrDefault(guests: Value): (g: Value)
    ensures Truthy(g)
    ensures Truthy(guests) ==> g == guests
    ensures !Truthy(guests) ==> g == Num(1)
  {
    Or(guests, Num(1))
  }

  /** POST /api/rsvp. Rejected only for a falsy `name` or an absent
      `presence`; any other presence, including 0, null or false, is
      accepted. `id` and `createdAt` stand for the generated UUID and the
      current time. */
  function Create(s: seq<Rsvp>, id: string, createdAt: string,
                  name: Value, presence: Value, guests: Value): (out: Outcome<Rsvp, Rsvp>)
    ensures out.reply.Failure? <==> !Truthy(name) || IsUndefined(presence)
    ensures out.reply.Failure? ==>
      out.reply == Failure(BAD_REQUEST, MISSING_DATA) && out.store == s
    ensures out.reply.Success? ==>
      out.reply.status == CREATED &&
      out.reply.body == Rsvp(id, name, presence, GuestsOrDefault(guests), createdAt) &&
      |out.store| == |s| + 1 && out.store[0] == out.reply.body && out.store[1..] == s
  {
    if !Truthy(name) || IsUndefined(presence) then
      Outcome(Failure(BAD_REQUEST, MISSING_DATA), s)
    else
      var r := Rsvp(id, name, presence, GuestsOrDefault(guests), createdAt);
      Outcome(Success(CREATED, r), [r] + s)
  }

  /** No two RSVPs share an id. */
  predicate UniqueIds(s: seq<Rsvp>) {
    forall i, j :: 0 <= i < j < |s| ==> s[i].id != s[j].id
  }

  /** What every RSVP in the model's collection satisfies once the
      collection is built by the operations alone: a truthy name, a defined
      presence and a truthy guest count. (A number that overflows to
      `Infinity` is stored by the write as `null`; that case is outside this
      model.) */
  predicate WellFormed(r: Rsvp) {
    Truthy(r.name) && !IsUndefined(r.presence) && Truthy(r.guests)
  }

  predicate Consistent(s: seq<Rsvp>) {
    UniqueIds(s) && forall i :: 0 <= i < |s| ==> WellFormed(s[i])
  }

  predicate Has(s: seq<Rsvp>, id: string) {
    exists j :: 0 <= j < |s| && s[j].id == id
  }

  /** Creating with a fresh id keeps the collection consistent. */
  lemma CreatePreservesConsistent(s: seq<Rsvp>, id: string, createdAt: string,
                                  name: Value, presence: Value, guests: Value)
    requires Consistent(s)
    requires !Has(s, id)
    ensures Consistent(Create(s, id, createdAt, name, presence, guests).store)
  {
    var t := Create(s, id, createdAt, name, presence, guests).store;
    if t != s {
      forall i, j | 0 <= i < j < |t| ensures t[i].id != t[j].id {
        assert t[j] == s[j - 1];
        if i > 0 { assert t[i] == s[i - 1]; }
      }
      forall i | 0 <= i < |t| ensures WellFormed(t[i]) {
        if i > 0 { assert t[i] == s[i - 1]; }
      }
    }
  }

  /** Sending `{ name: "Ana", presence: 1 }` without guests records one
      guest. */
  lemma MissingGuestsDefaultsToOne(s: seq<Rsvp>, id: string, createdAt: string)
    ensures Create(s, id, createdAt, Str("Ana"), Num(1), Undefined).reply
         == Success(CREATED, Rsvp(id, Str("Ana"), Num(1), Num(1), createdAt))
  {
  }

  /** A presence of 0 is accepted; only an absent presence is refused. */
  lemma PresenceZeroAccepted(s: seq<Rsvp>, id: string, createdAt: string, guests: Value)
    ensures Create(s, id, createdAt, Str("Ana"), Num(0), guests).reply.status == CREATED
    ensures Create(s, id, createdAt, Str("Ana"), Undefined, guests)
         == Outcome(Failure(BAD_REQUEST, MISSING_DATA), s)
  {
  }

  /** A negative guest count is truthy and is stored unchanged, so
      `guests: -5` is recorded as -5 rather than replaced by 1. */
  lemma NegativeGuestsKept(s: seq<Rsvp>, id: string, createdAt: string, k: int)
    requires k < 0
    ensures Create(s, id, createdAt, Str("Ana"), Num(1), Num(k)).store[0].guests == Num(k)
  {
  }
}
