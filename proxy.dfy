/**
 * The room admission gate that runs in front of every `/room/<id>` page:
 * it looks up the room's metadata hash, lets a returning member through,
 * turns away a full room or a wrong group passcode, and otherwise mints an
 * auth token for the newcomer, appends it to the room's `connected` list,
 * makes the newcomer the owner of a room that has none, and announces the
 * new participant count on the room's channel.
 */
module Proxy {
  import opened Wrappers

  /** The stored `meta:<roomId>` hash; every field but `createdAt` may be absent. */
  datatype Meta = Meta(
    connected: Option<seq<string>>,
    createdAt: int,
    mode: Option<string>,
    passcode: Option<string>,
    ownerToken: Option<string>,
    master: Option<string>)

  /** What the gate reads of a request: the path, the `x-auth-token` cookie
      and the `passcode` query parameter. */
  datatype Request = Request(path: string, cookie: Option<string>, passcode: Option<string>)

  /** A redirect to `/` with the optional `error` and `room` query
      parameters, or the page itself, setting the auth cookie when one was minted. */
  datatype Response =
    | Redirect(error: Option<string>, room: Option<string>)
    | Pass(setCookie: Option<string>)

  /** A realtime event on a room's channel. */
  datatype Event = Participants(channel: string, count: int)

  /** What the gate decides about a request for an existing room. */
  datatype Decision = Member | Full | PasscodeRequired | Admit

  const Prefix: string := "/room/"

  /** The path pattern `^/room/([^/]+)$`: the room id, when the path is one. */
  function MatchRoom(path: string): Option<string> {
    if |path| > |Prefix| && path[..|Prefix|] == Prefix && NoSlash(path[|Prefix|..])
    then Some(path[|Prefix|..])
    else None
  }

  predicate NoSlash(s: string) {
    forall i | 0 <= i < |s| :: s[i] != '/'
  }

  /** The pattern matches exactly `/room/` followed by a non-empty id without '/'. */
  lemma MatchRoomIff(path: string, id: string)
    ensures MatchRoom(path) == Some(id) <==> path == Prefix + id && id != [] && NoSlash(id)
  {
    if path == Prefix + id {
      assert path[..|Prefix|] == Prefix && path[|Prefix|..] == id;
    }
    if MatchRoom(path) == Some(id) {
      assert path == path[..|Prefix|] + path[|Prefix|..];
    }
  }

  /** JavaScript truthiness of an optional string: present and non-empty. */
  predicate Truthy(s: Option<string>) {
    s.Some? && s.value != ""
  }

  /** `meta.connected ?? []` */
  function Connected(meta: Meta): seq<string> {
    meta.connected.GetOr([])
  }

  predicate IsMaster(meta: Meta) {
    meta.master == Some("true")
  }

  predicate IsGroup(meta: Meta) {
    meta.mode == Some("group")
  }

  /** Twelve for a group room, two for a pair room or one without a mode. */
  function Capacity(meta: Meta): (c: nat)
    ensures c == 2 || c == 12
    ensures c == 12 <==> IsGroup(meta)
  {
    if IsGroup(meta) then 12 else 2
  }

  /** The checks in order: membership first, then capacity, then the passcode. */
  function Admission(meta: Meta, cookie: Option<string>, passcode: Option<string>): Decision {
    if Truthy(cookie) && cookie.value in Connected(meta) then Member
    else if !IsMaster(meta) && |Connected(meta)| >= Capacity(meta) then Full
    else if IsGroup(meta) && Truthy(meta.passcode) && passcode != meta.passcode then PasscodeRequired
    else Admit
  }

  /** A newcomer is admitted exactly when they are not already a member, the
      room is a master room or has room left, and a group room's non-empty
      passcode, if any, was supplied. */
  lemma AdmitIff(meta: Meta, cookie: Option<string>, passcode: Option<string>)
    ensures Admission(meta, cookie, passcode) == Admit <==>
      && !(Truthy(cookie) && cookie.value in Connected(meta))
      && (IsMaster(meta) || |Connected(meta)| < Capacity(meta))
      && (!IsGroup(meta) || !Truthy(meta.passcode) || passcode == meta.passcode)
  {
  }

  /** A member is let through whatever the room's fill or passcode. */
  lemma MemberAlwaysPasses(meta: Meta, token: string, passcode: Option<string>)
    requires token != "" && token in Connected(meta)
    ensures Admission(meta, Some(token), passcode) == Member
  {
  }

  /** A master room never turns anyone away for capacity. */
  lemma MasterNeverFull(meta: Meta, cookie: Option<string>, passcode: Option<string>)
    requires IsMaster(meta)
    ensures Admission(meta, cookie, passcode) != Full
  {
  }

  /** Only a group room with a non-empty passcode asks for one. */
  lemma PasscodeOnlyForGroups(meta: Meta, cookie: Option<string>, passcode: Option<string>)
    requires !IsGroup(meta) || !Truthy(meta.passcode)
    ensures Admission(meta, cookie, passcode) != PasscodeRequired
  {
  }

  /** The hash after a newcomer joins with `token`: `token` appended to
      `connected`, the owner kept when present and otherwise `token`, every
      other field as it was. */
  function Joined(meta: Meta, token: string): (m: Meta)
    ensures Connected(m) == Connected(meta) + [token]
    ensures m.ownerToken == Some(meta.ownerToken.GetOr(token))
    ensures m.createdAt == meta.createdAt && m.mode == meta.mode && m.passcode == meta.passcode
    ensures m.master == meta.master
  {
    meta.(connected := Some(Connected(meta) + [token]), ownerToken := Some(meta.ownerToken.GetOr(token)))
  }

  /** A non-master room within its capacity stays within it after admitting a newcomer. */
  lemma JoinedWithinCapacity(meta: Meta, cookie: Option<string>, passcode: Option<string>, token: string)
    requires !IsMaster(meta) && |Connected(meta)| <= Capacity(meta)
    requires Admission(meta, cookie, passcode) == Admit
    ensures |Connected(Joined(meta, token))| <= Capacity(Joined(meta, token))
  {
  }

  /** The hash after newcomers join one after another with `tokens`. */
  function JoinAll(meta: Meta, tokens: seq<string>): Meta
    decreases |tokens|
  {
    if tokens == [] then meta else JoinAll(Joined(meta, tokens[0]), tokens[1..])
  }

  /** The first newcomer of an ownerless room becomes its owner and stays so;
      `connected` grows by the newcomers in order. */
  lemma {:induction false} OwnerIsFirstJoiner(meta: Meta, tokens: seq<string>)
    requires tokens != []
    ensures JoinAll(meta, tokens).ownerToken == Some(meta.ownerToken.GetOr(tokens[0]))
    ensures Connected(JoinAll(meta, tokens)) == Connected(meta) + tokens
    decreases |tokens|
  {
    var m := Joined(meta, tokens[0]);
    if |tokens| > 1 {
      OwnerIsFirstJoiner(m, tokens[1..]);
      assert tokens == [tokens[0]] + tokens[1..];
    }
  }

  /** A pair room admits its first two newcomers and turns away a third. */
  lemma PairRoomHoldsTwo(meta: Meta, a: string, b: string, c: string, cookie: Option<string>)
    requires !IsMaster(meta) && !IsGroup(meta) && Connected(meta) == []
    requires cookie == None || cookie == Some(c)
    requires c != a && c != b
    ensures Admission(meta, None, None) == Admit
    ensures Admission(Joined(meta, a), None, None) == Admit
    ensures Admission(Joined(Joined(meta, a), b), cookie, None) == Full
  {
    assert Connected(Joined(Joined(meta, a), b)) == [a, b];
  }

  /** The room store (the `meta:<roomId>` hashes, keyed by room id) and the
      events emitted so far. */
  class RoomStore {
    var rooms: map<string, Meta>
    var events: seq<Event>

    constructor(rooms: map<string, Meta>)
      ensures this.rooms == rooms && events == []
    {
      this.rooms := rooms;
      events := [];
    }

    /** Every non-master room holds no more members than its capacity. */
    predicate WithinCapacity()
      reads this
    {
      forall id | id in rooms :: !IsMaster(rooms[id]) ==> |Connected(rooms[id])| <= Capacity(rooms[id])
    }

    /** The gate on one request; `freshToken` is the token minted for a newcomer. */
    method Proxy(req: Request, freshToken: string) returns (res: Response)
      modifies this
      ensures MatchRoom(req.path).None? ==>
        res == Redirect(None, None) && rooms == old(rooms) && events == old(events)
      ensures MatchRoom(req.path).Some? && MatchRoom(req.path).value !in old(rooms) ==>
        res == Redirect(Some("room-not-found"), None) && rooms == old(rooms) && events == old(events)
      ensures MatchRoom(req.path).Some? && MatchRoom(req.path).value in old(rooms) ==>
        var id := MatchRoom(req.path).value;
        var meta := old(rooms)[id];
        match Admission(meta, req.cookie, req.passcode)
        case Member => res == Pass(None) && rooms == old(rooms) && events == old(events)
        case Full => res == Redirect(Some("room-full"), None) && rooms == old(rooms) && events == old(events)
        case PasscodeRequired =>
          res == Redirect(Some("passcode-required"), Some(id)) && rooms == old(rooms) && events == old(events)
        case Admit =>
          && res == Pass(Some(freshToken))
          && rooms == old(rooms)[id := Joined(meta, freshToken)]
          && events == old(events) + [Participants(id, |Connected(meta)| + 1)]
      ensures old(WithinCapacity()) ==> WithinCapacity()
    {
      var roomMatch := MatchRoom(req.path);
      if roomMatch.None? {
        return Redirect(None, None);
      }
      var roomId := roomMatch.value;
      if roomId !in rooms {
        return Redirect(Some("room-not-found"), None);
      }
      var meta := rooms[roomId];
      var decision := Admission(meta, req.cookie, req.passcode);
      match decision {
        case Member =>
          return Pass(None);
        case Full =>
          return Redirect(Some("room-full"), None);
        case PasscodeRequired =>
          return Redirect(Some("passcode-required"), Some(roomId));
        case Admit =>
          var connected := Connected(meta);
          rooms := rooms[roomId := Joined(meta, freshToken)];
          events := events + [Participants(roomId, |connected| + 1)];
          if !IsMaster(meta) {
            JoinedWithinCapacity(meta, req.cookie, req.passcode, freshToken);
          }
          return Pass(Some(freshToken));
      }
    }
  }

  /** The count announced after a join is the length of the new `connected` list. */
  lemma EmittedCount(meta: Meta, token: string)
    ensures |Connected(Joined(meta, token))| == |Connected(meta)| + 1
  {
  }
}
