/** The input checks of the HTTP handlers: registration and login
    credentials, the logout user id, and the participant check and canonical
    pair of conversation creation. Decoding, hashing and queries are inputs. */
module Handlers {
  import opened ChatTypes

  // ---------------------------------------------------------------------
  // Go strings: byte length and strings.TrimSpace
  // ---------------------------------------------------------------------

  /** Number of bytes of the UTF-8 encoding of one character. */
  function Utf8Width(ch: char): (n: nat)
    ensures 1 <= n <= 4
  {
    if ch as int < 0x80 then 1
    else if ch as int < 0x800 then 2
    else if ch as int < 0x10000 then 3
    else 4
  }

  /** Go's `len` of a string: the length of its UTF-8 encoding in bytes. */
  function Utf8Length(s: string): (n: nat)
    ensures |s| <= n <= 4 * |s|
    decreases |s|
  {
    if s == [] then 0 else Utf8Length(s[..|s| - 1]) + Utf8Width(s[|s| - 1])
  }

  predicate IsAscii(s: string) {
    forall i :: 0 <= i < |s| ==> s[i] as int < 0x80
  }

  /** On ASCII text, bytes and characters coincide. */
  lemma {:induction false} AsciiUtf8Length(s: string)
    requires IsAscii(s)
    ensures Utf8Length(s) == |s|
    decreases |s|
  {
    if s != [] {
      assert IsAscii(s[..|s| - 1]);
      AsciiUtf8Length(s[..|s| - 1]);
    }
  }

  /** `unicode.IsSpace`: the Latin-1 white space and the other characters
      with the Unicode White_Space property. */
  predicate IsSpace(ch: char) {
    var c := ch as int;
    || (0x09 <= c <= 0x0D) || c == 0x20 || c == 0x85 || c == 0xA0
    || c == 0x1680 || (0x2000 <= c <= 0x200A)
    || c == 0x2028 || c == 0x2029 || c == 0x202F || c == 0x205F || c == 0x3000
  }

  function TrimLeft(s: string): (r: string)
    ensures |r| <= |s| && r == s[|s| - |r|..]
    ensures forall i :: 0 <= i < |s| - |r| ==> IsSpace(s[i])
    ensures r == [] || !IsSpace(r[0])
    decreases |s|
  {
    if s != [] && IsSpace(s[0]) then TrimLeft(s[1..]) else s
  }

  function TrimRight(s: string): (r: string)
    ensures |r| <= |s| && r == s[..|r|]
    ensures forall i :: |r| <= i < |s| ==> IsSpace(s[i])
    ensures r == [] || !IsSpace(r[|r| - 1])
    decreases |s|
  {
    if s != [] && IsSpace(s[|s| - 1]) then TrimRight(s[..|s| - 1]) else s
  }

  /** `strings.TrimSpace`: the slice of `s` left after removing leading and
      trailing white space. */
  function TrimSpace(s: string): (r: string)
    ensures |r| <= |s|
    ensures r == [] || (!IsSpace(r[0]) && !IsSpace(r[|r| - 1]))
  {
    var l := TrimLeft(s);
    var t := TrimRight(l);
    assert t != [] ==> t[0] == l[0];
    t
  }

  /** TrimSpace cuts a slice `s[lo..hi]` out of `s`, and everything cut is
      white space. */
  lemma TrimSpaceIsTrimmedSlice(s: string) returns (lo: nat, hi: nat)
    ensures lo <= hi <= |s| && TrimSpace(s) == s[lo..hi]
    ensures forall i :: 0 <= i < lo ==> IsSpace(s[i])
    ensures forall i :: hi <= i < |s| ==> IsSpace(s[i])
  {
    var l := TrimLeft(s);
    var t := TrimRight(l);
    lo := |s| - |l|;
    hi := lo + |t|;
    SliceOfSuffix(s, lo, l, t);
  }

  /** A prefix `t` of the suffix `l == s[lo..]` is the slice
      `s[lo..lo + |t|]`, and what `t` leaves of `l` is what the slice leaves
      of `s` after it. */
  lemma SliceOfSuffix(s: string, lo: nat, l: string, t: string)
    requires lo <= |s| && l == s[lo..] && |t| <= |l| && t == l[..|t|]
    requires forall i :: |t| <= i < |l| ==> IsSpace(l[i])
    ensures t == s[lo..lo + |t|]
    ensures forall i :: lo + |t| <= i < |s| ==> IsSpace(s[i])
  {
    forall i | lo + |t| <= i < |s| ensures IsSpace(s[i]) {
      assert s[i] == l[i - lo];
    }
  }

  // ---------------------------------------------------------------------
  // POST /api/register and POST /api/login
  // ---------------------------------------------------------------------

  const UsernameTooShort := "username must be at least 3 characters"
  const PasswordTooShort := "password must be at least 6 characters"
  const CredentialsRequired := "username and password required"

  /** An accepted request carries the trimmed username to look up or store. */
  datatype Checked = Accepted(username: string) | Rejected(reason: string)

  /** The registration check as written: Go's `len` counts bytes, so the
      minimum lengths are UTF-8 byte counts. */
  function CheckRegistration(username: string, password: string): (r: Checked)
    ensures r.Accepted? <==> Utf8Length(TrimSpace(username)) >= 3 && Utf8Length(password) >= 6
    ensures r.Accepted? ==> r.username == TrimSpace(username)
    ensures r.Rejected? ==>
      r.reason == if Utf8Length(TrimSpace(username)) < 3 then UsernameTooShort else PasswordTooShort
  {
    var name := TrimSpace(username);
    if Utf8Length(name) < 3 then Rejected(UsernameTooShort)
    else if Utf8Length(password) < 6 then Rejected(PasswordTooShort)
    else Accepted(name)
  }

  /** The byte count lets a two-character name through the "at least 3
      characters" check. */
  lemma TwoCharacterUsernameAccepted()
    ensures |TrimSpace("\U{E9}\U{E9}")| == 2
    ensures CheckRegistration("\U{E9}\U{E9}", "secret").Accepted?
  {
    var name := "\U{E9}\U{E9}";
    assert !IsSpace(name[0]) && !IsSpace(name[1]);
    assert TrimLeft(name) == name;
    assert TrimRight(name) == name;
    assert name[..1] == "\U{E9}" && "\U{E9}"[..0] == "";
    assert Utf8Length(name) == 4;
    assert IsAscii("secret");
    AsciiUtf8Length("secret");
  }

  /** The registration check as its messages describe it: the minimum
      lengths count characters. */
  function CheckRegistrationByChars(username: string, password: string): (r: Checked)
    ensures r.Accepted? <==> |TrimSpace(username)| >= 3 && |password| >= 6
    ensures r.Accepted? ==> r.username == TrimSpace(username)
    ensures r.Rejected? ==>
      r.reason == if |TrimSpace(username)| < 3 then UsernameTooShort else PasswordTooShort
  {
    var name := TrimSpace(username);
    if |name| < 3 then Rejected(UsernameTooShort)
    else if |password| < 6 then Rejected(PasswordTooShort)
    else Accepted(name)
  }

  /** The character count never accepts what the byte count rejects. */
  lemma CheckRegistrationByCharsIsStricter(username: string, password: string)
    ensures CheckRegistrationByChars(username, password).Accepted? ==>
            CheckRegistration(username, password).Accepted?
  {
  }

  /** On ASCII input the two checks agree. */
  lemma CheckRegistrationAgreesOnAscii(username: string, password: string)
    requires IsAscii(username) && IsAscii(password)
    ensures CheckRegistrationByChars(username, password) == CheckRegistration(username, password)
  {
    var t := TrimSpace(username);
    var lo, hi := TrimSpaceIsTrimmedSlice(username);
    assert IsAscii(t) by {
      forall i | 0 <= i < |t| ensures t[i] as int < 0x80 {
        assert t[i] == username[lo + i];
      }
    }
    AsciiUtf8Length(t);
    AsciiUtf8Length(password);
  }

  /** The login check: the trimmed username and the (untrimmed) password
      must both be non-empty. */
  function CheckLogin(username: string, password: string): (r: Checked)
    ensures r.Accepted? <==> TrimSpace(username) != "" && password != ""
    ensures r.Accepted? ==> r.username == TrimSpace(username)
    ensures r.Rejected? ==> r.reason == CredentialsRequired
  {
    var name := TrimSpace(username);
    if name == "" || password == "" then Rejected(CredentialsRequired) else Accepted(name)
  }

  /** A username made only of white space is refused at login. */
  lemma BlankUsernameRefused(username: string, password: string)
    requires forall i :: 0 <= i < |username| ==> IsSpace(username[i])
    ensures CheckLogin(username, password).Rejected?
  {
    AllSpaceTrimsToEmpty(username);
  }

  lemma {:induction false} AllSpaceTrimsToEmpty(s: string)
    requires forall i :: 0 <= i < |s| ==> IsSpace(s[i])
    ensures TrimLeft(s) == [] && TrimSpace(s) == []
    decreases |s|
  {
    if s != [] {
      AllSpaceTrimsToEmpty(s[1..]);
    }
  }

  // ---------------------------------------------------------------------
  // POST /api/logout: which user logs out
  // ---------------------------------------------------------------------

  /** How the request body was read: not read (the content type is not
      JSON), decoded with a `user_id` (0 when absent), empty (EOF), or
      malformed. */
  datatype LogoutBody = NotJson | BodyId(userId: int) | EmptyBody | InvalidBody

  datatype LogoutTarget = LogoutUser(id: int) | BadBody | MissingId

  /** The id to log out. `query` is None when the `user_id` query parameter
      is missing or empty, otherwise the value `strconv.ParseInt` returned
      for it (whose error is ignored). */
  function ResolveLogoutId(body: LogoutBody, query: Option<int>): (r: LogoutTarget)
    ensures r == BadBody <==> body == InvalidBody
    ensures r.LogoutUser? ==> r.id != 0
    ensures body.BodyId? && body.userId != 0 ==> r == LogoutUser(body.userId)
    ensures body != InvalidBody && !(body.BodyId? && body.userId != 0) ==>
      r == if query.Some? && query.value != 0 then LogoutUser(query.value) else MissingId
  {
    if body == InvalidBody then BadBody
    else
      var fromBody := if body.BodyId? then body.userId else 0;
      var id := if fromBody == 0 && query.Some? then query.value else fromBody;
      if id == 0 then MissingId else LogoutUser(id)
  }

  // ---------------------------------------------------------------------
  // POST /api/conversations: participant check and one-to-one dedup
  // ---------------------------------------------------------------------

  datatype ConversationPlan =
    | TooFewParticipants
    | LookUpDirect(u1: int, u2: int)   // the canonical pair to look up first
    | CreateNew

  /** The checks before an insert: at least two participants, and a lookup
      of the canonical pair for a non-group conversation of exactly two. */
  function PlanConversation(ids: seq<int>, isGroup: bool): (p: ConversationPlan)
    ensures p == TooFewParticipants <==> |ids| < 2
    ensures p.LookUpDirect? <==> !isGroup && |ids| == 2
    ensures p.LookUpDirect? ==> p.u1 <= p.u2 && {p.u1, p.u2} == {ids[0], ids[1]}
  {
    if |ids| < 2 then TooFewParticipants
    else if !isGroup && |ids| == 2 then
      if ids[0] > ids[1] then LookUpDirect(ids[1], ids[0]) else LookUpDirect(ids[0], ids[1])
    else CreateNew
  }

  /** The pair (a, b) and the pair (b, a) are looked up under the same key. */
  lemma CanonicalPairSymmetric(a: int, b: int)
    ensures PlanConversation([a, b], false) == PlanConversation([b, a], false)
  {
  }

  /** The answer of the dedup query for a canonical pair. */
  datatype DirectLookup = LookupError | NoRows | Found(convId: int)

  datatype CreateOutcome =
    | BadRequest(reason: string)
    | ServerError
    | Existing(convId: int)
    | Created(convId: int)

  const TooFewMessage := "at least 2 participants required"

  /** Whether the dedup query of this request fails with an error other
      than "no rows". */
  predicate LookupFailed(ids: seq<int>, isGroup: bool, lookup: (int, int) -> DirectLookup) {
    var p := PlanConversation(ids, isGroup);
    p.LookUpDirect? && lookup(p.u1, p.u2).LookupError?
  }

  /** Whether the dedup query found a conversation id above 0 for this
      request's canonical pair. */
  predicate PairFound(ids: seq<int>, isGroup: bool, lookup: (int, int) -> DirectLookup) {
    var p := PlanConversation(ids, isGroup);
    p.LookUpDirect? && lookup(p.u1, p.u2).Found? && lookup(p.u1, p.u2).convId > 0
  }

  /** The decision of `createConversationHandler` as written. `lookup`
      answers the dedup query for a canonical pair, `detailsOk` says whether
      reading the found conversation succeeded, and `insert` is the new
      conversation's id (None when the insert fails). A found conversation
      whose read fails falls through to the insert. */
  function CreateConversation(ids: seq<int>, isGroup: bool, lookup: (int, int) -> DirectLookup,
                              detailsOk: bool, insert: Option<int>): (r: CreateOutcome)
    ensures |ids| < 2 <==> r == BadRequest(TooFewMessage)
    ensures r.Existing? <==> PairFound(ids, isGroup, lookup) && detailsOk
    ensures r.Existing? ==>
      var p := PlanConversation(ids, isGroup); r.convId == lookup(p.u1, p.u2).convId
    ensures r == ServerError <==>
      |ids| >= 2 && !r.Existing? && (LookupFailed(ids, isGroup, lookup) || insert.None?)
    ensures r.Created? <==>
      |ids| >= 2 && !r.Existing? && !LookupFailed(ids, isGroup, lookup) && insert.Some?
    ensures r.Created? ==> insert == Some(r.convId)
  {
    match PlanConversation(ids, isGroup)
    case TooFewParticipants => BadRequest(TooFewMessage)
    case LookUpDirect(u1, u2) =>
      (match lookup(u1, u2)
       case LookupError => ServerError
       case Found(id) =>
         if id > 0 && detailsOk then Existing(id) else InsertConversation(insert)
       case NoRows => InsertConversation(insert))
    case CreateNew => InsertConversation(insert)
  }

  /** The conversation insert: the new id, or a server error when it fails. */
  function InsertConversation(insert: Option<int>): (r: CreateOutcome)
    ensures r.Created? || r == ServerError
    ensures r.Created? <==> insert.Some?
    ensures r.Created? ==> r.convId == insert.value
  {
    match insert
    case None => ServerError
    case Some(id) => Created(id)
  }

  /** As written, a one-to-one pair that already has a conversation gets a
      second one when reading the existing conversation fails. */
  lemma ReadFailureCreatesSecondConversation(a: int, b: int, existing: int, newId: int)
    requires existing > 0
    ensures var lookup := (x: int, y: int) => Found(existing);
      && PairFound([a, b], false, lookup)
      && CreateConversation([a, b], false, lookup, false, Some(newId)) == Created(newId)
  {
  }

  /** The decision with the dedup kept: a found conversation whose read
      fails is a server error, so a pair that already has a conversation
      never gets a second one. */
  function CreateConversationNoDuplicate(ids: seq<int>, isGroup: bool, lookup: (int, int) -> DirectLookup,
                                         detailsOk: bool, insert: Option<int>): (r: CreateOutcome)
    ensures |ids| < 2 <==> r == BadRequest(TooFewMessage)
    ensures PairFound(ids, isGroup, lookup) ==> !r.Created?
    ensures r.Existing? <==> PairFound(ids, isGroup, lookup) && detailsOk
    ensures r == ServerError <==>
      |ids| >= 2 && !r.Existing? && (LookupFailed(ids, isGroup, lookup) || PairFound(ids, isGroup, lookup) || insert.None?)
    ensures r.Created? ==> insert == Some(r.convId)
    ensures !PairFound(ids, isGroup, lookup) ==> r == CreateConversation(ids, isGroup, lookup, detailsOk, insert)
  {
    match PlanConversation(ids, isGroup)
    case TooFewParticipants => BadRequest(TooFewMessage)
    case LookUpDirect(u1, u2) =>
      (match lookup(u1, u2)
       case LookupError => ServerError
       case Found(id) =>
         if id > 0 then (if detailsOk then Existing(id) else ServerError) else InsertConversation(insert)
       case NoRows => InsertConversation(insert))
    case CreateNew => InsertConversation(insert)
  }

  /** Creating the one-to-one conversation (a, b) and then (b, a) gives the
      same answer, and once the pair has a conversation it is returned rather
      than a second one created. */
  lemma DirectConversationDeduplicated(a: int, b: int, lookup: (int, int) -> DirectLookup,
                                       detailsOk: bool, insert: Option<int>)
    ensures CreateConversation([a, b], false, lookup, detailsOk, insert)
         == CreateConversation([b, a], false, lookup, detailsOk, insert)
    ensures var k := if a <= b then (a, b) else (b, a);
      lookup(k.0, k.1).Found? && lookup(k.0, k.1).convId > 0 && detailsOk ==>
        CreateConversation([b, a], false, lookup, detailsOk, insert) == Existing(lookup(k.0, k.1).convId)
  {
    CanonicalPairSymmetric(a, b);
  }
}
