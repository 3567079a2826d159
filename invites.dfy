/** The invite gate: InviteCode rows (code, maxUses, uses, optional expiry)
    and InviteService's consume and revoke. Registration needs an invite
    that has not expired and still has a use left. */
module Invites {
  import opened Wrappers
  import opened JavaLang

  /** The persisted fields of an invite (the UUID key and the creation
      timestamp left out; the unique code stands in for the row). */
  datatype InviteRow = InviteRow(code: string, maxUses: int32, uses: int32, expiresAt: Option<Instant>)

  /** The three ResponseStatusExceptions of consume and revoke, and the
      unique index on code refusing a second invite with the same code. */
  datatype InviteError =
    | InviteNotFound  // NOT_FOUND "Invalid invite code" / "Invite not found"
    | InviteExpired   // BAD_REQUEST "Invite code expired"
    | InviteUsedUp    // BAD_REQUEST "Invite code already used up"
    | DuplicateCode

  /** The invite_codes table, keyed by code (the unique index
      ux_invite_codes_code). */
  type InviteTable = map<string, InviteRow>

  ghost predicate ValidInvites(t: InviteTable)
  {
    forall c :: c in t ==> t[c].code == c
  }

  /** Set and strictly before now; no expiry never expires. */
  predicate Expired(row: InviteRow, now: Instant)
  {
    row.expiresAt.Some? && row.expiresAt.value < now
  }

  /** One consumption of a found invite: expiry is checked before
      exhaustion, and a success spends exactly one use. */
  function Consume(row: InviteRow, now: Instant): (r: Result<InviteRow, InviteError>)
    ensures r.Success? <==> !Expired(row, now) && row.uses < row.maxUses
    ensures Expired(row, now) ==> r == Failure(InviteExpired)
    ensures !Expired(row, now) && row.uses >= row.maxUses ==> r == Failure(InviteUsedUp)
    ensures r.Success? ==>
      && r.value.uses as int == row.uses as int + 1
      && r.value.code == row.code && r.value.maxUses == row.maxUses && r.value.expiresAt == row.expiresAt
      && r.value.uses <= r.value.maxUses
  {
    if Expired(row, now) then Failure(InviteExpired)
    else if row.uses >= row.maxUses then Failure(InviteUsedUp)
    else Success(row.(uses := row.uses + 1))
  }

  /** `consumeInvite` on the table: an unknown code is not found and nothing
      changes; otherwise only that invite's row changes, as Consume says. */
  function ConsumeIn(t: InviteTable, code: string, now: Instant): (r: Result<InviteTable, InviteError>)
    ensures code !in t ==> r == Failure(InviteNotFound)
    ensures code in t ==> r.Success? == Consume(t[code], now).Success?
    ensures code in t && r.Failure? ==> r.error == Consume(t[code], now).error
    ensures r.Success? ==> r.value == t[code := Consume(t[code], now).value]
    ensures ValidInvites(t) && r.Success? ==> ValidInvites(r.value)
  {
    if code !in t then Failure(InviteNotFound)
    else
      match Consume(t[code], now)
      case Failure(e) => Failure(e)
      case Success(row) => Success(t[code := row])
  }

  /** Taking back the use a successful consume spent restores the table. */
  lemma ConsumeRollBack(t: InviteTable, code: string, now: Instant)
    requires ConsumeIn(t, code, now).Success?
    ensures var t' := ConsumeIn(t, code, now).value;
            && code in t' && t'[code].uses > -0x8000_0000
            && t'[code := t'[code].(uses := t'[code].uses - 1)] == t
  {
    var t' := ConsumeIn(t, code, now).value;
    assert t'[code := t'[code].(uses := t'[code].uses - 1)][code] == t[code];
  }

  /** `revoke` on one invite: no use is left beyond those already spent. */
  function RevokeRow(row: InviteRow): (r: InviteRow)
    ensures r.maxUses == row.uses && r.uses == row.uses
    ensures r.code == row.code && r.expiresAt == row.expiresAt
  {
    row.(maxUses := row.uses)
  }

  /** `revoke` on the table: an unknown code is not found. */
  function RevokeIn(t: InviteTable, code: string): (r: Result<InviteTable, InviteError>)
    ensures r.Failure? <==> code !in t
    ensures r.Failure? ==> r.error == InviteNotFound
    ensures r.Success? ==> r.value == t[code := RevokeRow(t[code])]
  {
    if code !in t then Failure(InviteNotFound) else Success(t[code := RevokeRow(t[code])])
  }

  /** After a revoke every consume fails: as expired if the invite has
      expired, otherwise as used up. */
  lemma RevokeBlocksConsume(t: InviteTable, code: string, now: Instant)
    requires RevokeIn(t, code).Success?
    ensures ConsumeIn(RevokeIn(t, code).value, code, now).Failure?
    ensures !Expired(t[code], now) ==> ConsumeIn(RevokeIn(t, code).value, code, now) == Failure(InviteUsedUp)
  {
    assert RevokeIn(t, code).value[code] == RevokeRow(t[code]);
  }

  /** Revoking twice is revoking once. */
  lemma RevokeIdempotent(t: InviteTable, code: string)
    ensures RevokeIn(t, code).Success? ==> RevokeIn(RevokeIn(t, code).value, code) == RevokeIn(t, code)
  {
    if code in t {
      var t1 := t[code := RevokeRow(t[code])];
      assert t1[code := RevokeRow(t1[code])] == t1;
    }
  }

  /** Consuming the same invite once at each of the given instants: how
      many succeeded, and the invite afterwards. */
  function ConsumeAll(row: InviteRow, nows: seq<Instant>): (nat, InviteRow)
    decreases |nows|
  {
    if nows == [] then (0, row)
    else
      match Consume(row, nows[0])
      case Success(next) =>
        var (n, last) := ConsumeAll(next, nows[1..]);
        (n + 1, last)
      case Failure(_) => ConsumeAll(row, nows[1..])
  }

  function Max0(n: int): nat { if n < 0 then 0 else n }

  /** However often it is presented, an invite admits at most
      maxUses - uses registrations; each one is counted in uses and nothing
      else about the invite changes. */
  lemma {:induction false} ConsumeAllBound(row: InviteRow, nows: seq<Instant>)
    ensures var (n, last) := ConsumeAll(row, nows);
            && n <= Max0(row.maxUses as int - row.uses as int)
            && last.uses as int == row.uses as int + n
            && last.code == row.code && last.maxUses == row.maxUses && last.expiresAt == row.expiresAt
    decreases |nows|
  {
    if nows != [] {
      match Consume(row, nows[0])
      case Success(next) => ConsumeAllBound(next, nows[1..]);
      case Failure(_) => ConsumeAllBound(row, nows[1..]);
    }
  }

  /** An invite without expiry admits exactly min(attempts, maxUses - uses)
      registrations. */
  lemma {:induction false} NeverExpiringCount(row: InviteRow, nows: seq<Instant>)
    requires row.expiresAt.None?
    ensures ConsumeAll(row, nows).0 ==
      if |nows| < Max0(row.maxUses as int - row.uses as int) then |nows| else Max0(row.maxUses as int - row.uses as int)
    decreases |nows|
  {
    if nows != [] {
      match Consume(row, nows[0])
      case Success(next) => NeverExpiringCount(next, nows[1..]);
      case Failure(_) => NeverExpiringCount(row, nows[1..]);
    }
  }

  /** An invite with the defaults (maxUses 1, uses 0, no expiry) lets exactly
      one registration through: a second presentation is used up. */
  lemma DefaultInviteSingleUse(code: string, now1: Instant, now2: Instant)
    ensures var t := map[code := InviteRow(code, 1, 0, None)];
            && ConsumeIn(t, code, now1).Success?
            && ConsumeIn(ConsumeIn(t, code, now1).value, code, now2) == Failure(InviteUsedUp)
  {
    var t := map[code := InviteRow(code, 1, 0, None)];
    assert ConsumeIn(t, code, now1).value[code] == InviteRow(code, 1, 1, None);
  }

  /** The InviteCode entity: its fields change through setters. */
  class InviteCode {
    var code: string
    var maxUses: int32
    var uses: int32
    var expiresAt: Option<Instant>

    /** `new InviteCode()` followed by `setCode(code)`: one use, none spent,
        no expiry. */
    constructor (code: string)
      ensures this.code == code && maxUses == 1 && uses == 0 && expiresAt == None
    {
      this.code := code;
      maxUses := 1;
      uses := 0;
      expiresAt := None;
    }

    function Row(): InviteRow
      reads this
    {
      InviteRow(code, maxUses, uses, expiresAt)
    }

    method SetCode(code: string)
      modifies this
      ensures Row() == old(Row()).(code := code)
    {
      this.code := code;
    }

    method SetMaxUses(maxUses: int32)
      modifies this
      ensures Row() == old(Row()).(maxUses := maxUses)
    {
      this.maxUses := maxUses;
    }

    method SetUses(uses: int32)
      modifies this
      ensures Row() == old(Row()).(uses := uses)
    {
      this.uses := uses;
    }

    method SetExpiresAt(expiresAt: Option<Instant>)
      modifies this
      ensures Row() == old(Row()).(expiresAt := expiresAt)
    {
      this.expiresAt := expiresAt;
    }
  }

  /** InviteService over the repository's invites, found by code. */
  class InviteService {
    var invites: map<string, InviteCode>
    /** The rows of the stored invites, kept in step with the entities. */
    ghost var table: InviteTable

    constructor ()
      ensures invites == map[] && table == map[]
    {
      invites := map[];
      table := map[];
    }

    /** Each stored invite sits under its own code, so no two codes share an
        entity, and `table` holds, under the same codes, the rows the
        entities hold. */
    ghost predicate Valid()
      reads this, invites.Values
    {
      && invites.Keys == table.Keys
      && (forall c :: c in invites ==> invites[c].code == c && invites[c].Row() == table[c])
    }

    /** `findByCode`: the entity found holds the row stored under that code. */
    function FindByCode(code: string): (r: Option<InviteCode>)
      reads this, invites.Values
      ensures Valid() ==> (r.Some? <==> code in table)
      ensures Valid() && r.Some? ==> r.value in invites.Values && r.value.code == code && r.value.Row() == table[code]
    {
      if code in invites then Some(invites[code]) else None
    }

    /** `save` of a new invite; the unique index refuses a second invite with
        the same code, and saving a stored invite again changes nothing. */
    method Save(invite: InviteCode) returns (r: Result<InviteCode, InviteError>)
      requires Valid()
      modifies this
      ensures Valid()
      ensures invite.code in old(invites) && old(invites[invite.code]) != invite ==>
        r == Failure(DuplicateCode) && invites == old(invites) && table == old(table)
      ensures !(invite.code in old(invites) && old(invites[invite.code]) != invite) ==> r == Success(invite)
      ensures r.Success? ==> r.value == invite && invites == old(invites)[invite.code := invite]
      ensures r.Success? ==> table == old(table)[invite.code := invite.Row()]
    {
      if invite.code in invites && invites[invite.code] != invite {
        return Failure(DuplicateCode);
      }
      invites := invites[invite.code := invite];
      table := table[invite.code := invite.Row()];
      return Success(invite);
    }

    /** `consumeInvite`: find, check expiry, check uses, spend one use. */
    method ConsumeInvite(code: string, now: Instant) returns (r: Result<InviteCode, InviteError>)
      requires Valid()
      modifies this, invites.Values
      ensures Valid() && invites == old(invites)
      ensures var s := ConsumeIn(old(table), code, now);
              && (s.Success? ==> r == Success(invites[code]) && table == s.value)
              && (s.Failure? ==> r == Failure(s.error) && table == old(table))
    {
      if code !in invites {
        return Failure(InviteNotFound);
      }
      var invite := invites[code];
      if invite.expiresAt.Some? && invite.expiresAt.value < now {
        return Failure(InviteExpired);
      }
      if invite.uses >= invite.maxUses {
        return Failure(InviteUsedUp);
      }
      invite.SetUses(invite.uses + 1);
      assert forall c :: c in invites && c != code ==> invites[c] != invite;
      table := table[code := invite.Row()];
      return Success(invite);
    }

    /** `revoke`: no use is left beyond those spent. */
    method Revoke(code: string) returns (r: Result<(), InviteError>)
      requires Valid()
      modifies this, invites.Values
      ensures Valid() && invites == old(invites)
      ensures var s := RevokeIn(old(table), code);
              && (s.Success? ==> r.Success? && table == s.value)
              && (s.Failure? ==> r == Failure(s.error) && table == old(table))
    {
      if code !in invites {
        return Failure(InviteNotFound);
      }
      var invite := invites[code];
      invite.SetMaxUses(invite.uses);
      assert forall c :: c in invites && c != code ==> invites[c] != invite;
      table := table[code := invite.Row()];
      return Success(());
    }

    /** Not a service call: what the rollback of an enclosing transaction
        does to an invite that transaction consumed, the use it spent taken
        back. */
    method RollBackConsume(code: string)
      requires Valid() && code in table && table[code].uses > -0x8000_0000
      modifies this, invites.Values
      ensures Valid() && invites == old(invites)
      ensures table == old(table)[code := old(table)[code].(uses := old(table)[code].uses - 1)]
    {
      var invite := invites[code];
      invite.SetUses(invite.uses - 1);
      assert forall c :: c in invites && c != code ==> invites[c] != invite;
      table := table[code := invite.Row()];
    }
  }
}
