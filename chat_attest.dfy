/**
 * The attestation round of an mpOTR session: every participant sends the
 * session id and a hash of the association table (the participants' public
 * signing keys in list order); a participant is checked once both match our
 * own. The round finishes, and the session becomes encrypted, when everyone
 * is checked.
 *
 * The pure functions `Verify`, `Init` and `Handle` give each operation's
 * effect on the attestation state (`Info`) and the message state; the class
 * `ChatContext` performs them in place and is proved to agree with them.
 */
module ChatAttest {
  import opened Options
  import opened Serial
  import opened ChatTypes
  import opened ChatPayload
  import opened ChatMessage

  /** A member of the chat as the association table sees it: its account
      name and, once known, its public signing key in serialized form. */
  datatype Participant = Participant(name: string, signKey: Option<seq<byte>>)

  datatype AttestState = AttestAwaiting | AttestFinished

  /** The OTR message state of the chat context. */
  datatype MsgState = Plaintext | Encrypted | Finished

  // ---------------------------------------------------------------------
  // Counting checked participants.

  function CountTrue(s: seq<bool>): (n: nat)
    ensures n <= |s|
  {
    if |s| == 0 then 0 else (if s[0] then 1 else 0) + CountTrue(s[1..])
  }

  /** Setting one flag changes the count by what that flag gained or lost. */
  lemma {:induction false} CountUpdate(s: seq<bool>, p: nat, v: bool)
    requires p < |s|
    ensures CountTrue(s[p := v]) + (if s[p] then 1 else 0) == CountTrue(s) + (if v then 1 else 0)
  {
    if p == 0 {
      assert s[p := v][1..] == s[1..];
    } else {
      assert s[p := v][1..] == s[1..][p - 1 := v];
      CountUpdate(s[1..], p - 1, v);
    }
  }

  /** The count reaches the length exactly when every flag is set. */
  lemma {:induction false} CountAll(s: seq<bool>)
    ensures CountTrue(s) == |s| <==> forall k :: 0 <= k < |s| ==> s[k]
  {
    if |s| > 0 {
      CountAll(s[1..]);
      assert forall k :: 1 <= k < |s| ==> s[k] == s[1..][k - 1];
    }
  }

  /** No flag set, no count. */
  lemma {:induction false} CountNone(n: nat)
    ensures CountTrue(seq(n, _ => false)) == 0
  {
    if n > 0 {
      assert seq(n, _ => false)[1..] == seq(n - 1, _ => false);
      CountNone(n - 1);
    }
  }

  // ---------------------------------------------------------------------
  // The association table and the participant directory.

  /** The serialized keys of the table in list order; none when a participant
      has no signing key. */
  function TableKeys(ps: seq<Participant>): (r: Option<seq<byte>>)
    ensures r.None? <==> exists i :: 0 <= i < |ps| && ps[i].signKey.None?
  {
    if |ps| == 0 then Some([])
    else
      var init := ps[..|ps| - 1];
      assert forall i :: 0 <= i < |init| ==> init[i] == ps[i];
      match TableKeys(init)
      case None => None
      case Some(b) =>
        match ps[|ps| - 1].signKey
        case None => None
        case Some(k) => Some(b + k)
  }

  /** chat_attest_assoctable_hash: the first ASSOCTABLE_HASH_LENGTH bytes of
      the SHA-512 digest of the concatenated keys. */
  function TableHash(ps: seq<Participant>, sha: Sha512): (r: Option<seq<byte>>)
    ensures r.None? <==> exists i :: 0 <= i < |ps| && ps[i].signKey.None?
    ensures r.Some? ==> |r.value| == ASSOCTABLE_HASH_LENGTH
  {
    match TableKeys(ps)
    case None => None
    case Some(b) => Some(sha(b)[..ASSOCTABLE_HASH_LENGTH])
  }

  /** chat_participant_get_position: the position of the first participant
      with the given name. */
  function Position(ps: seq<Participant>, name: string): (r: Option<nat>)
    ensures r.None? <==> forall i :: 0 <= i < |ps| ==> ps[i].name != name
    ensures r.Some? ==> (r.value < |ps| && ps[r.value].name == name
      && forall i :: 0 <= i < r.value ==> ps[i].name != name)
  {
    if |ps| == 0 then None
    else if ps[0].name == name then Some(0)
    else match Position(ps[1..], name)
      case None => None
      case Some(p) => Some(p + 1)
  }

  /** The hash of the table depends only on the keys, in order. */
  lemma {:induction false} TableHashIgnoresNames(ps: seq<Participant>, qs: seq<Participant>, sha: Sha512)
    requires |ps| == |qs| && forall i :: 0 <= i < |ps| ==> ps[i].signKey == qs[i].signKey
    ensures TableHash(ps, sha) == TableHash(qs, sha)
  {
    TableKeysIgnoreNames(ps, qs);
  }

  lemma {:induction false} TableKeysIgnoreNames(ps: seq<Participant>, qs: seq<Participant>)
    requires |ps| == |qs| && forall i :: 0 <= i < |ps| ==> ps[i].signKey == qs[i].signKey
    ensures TableKeys(ps) == TableKeys(qs)
  {
    if |ps| > 0 {
      TableKeysIgnoreNames(ps[..|ps| - 1], qs[..|qs| - 1]);
    }
  }

  /** The keys of a longer table extend those of its prefix. */
  lemma {:induction false} TableKeysAppend(ps: seq<Participant>, k: seq<byte>, name: string)
    requires TableKeys(ps).Some?
    ensures TableKeys(ps + [Participant(name, Some(k))]) == Some(TableKeys(ps).value + k)
  {
    assert (ps + [Participant(name, Some(k))])[..|ps|] == ps;
  }

  // ---------------------------------------------------------------------
  // The attestation state and its operations as functions.

  /** ChatAttestInfo: one flag per participant position, their count and the
      round's state. */
  datatype Info = Info(checked: seq<bool>, count: nat, state: AttestState)

  /** The invariant the C code keeps: the count is the number of set flags. */
  ghost predicate Consistent(i: Info) {
    i.count == CountTrue(i.checked)
  }

  /** chat_attest_is_ready: under the invariant, every participant is
      checked. */
  function Ready(i: Info): (r: bool)
    ensures Consistent(i) ==> (r <==> forall k :: 0 <= k < |i.checked| ==> i.checked[k])
  {
    CountAll(i.checked);
    i.count == |i.checked|
  }

  /** chat_attest_info_init: a fresh round for `n` participants. */
  function FreshInfo(n: nat): (i: Info)
    ensures Consistent(i) && |i.checked| == n && i.count == 0 && i.state == AttestAwaiting
    ensures forall k :: 0 <= k < n ==> !i.checked[k]
  {
    CountNone(n);
    Info(seq(n, _ => false), 0, AttestAwaiting)
  }

  /** Sets the flag at `p` and counts it. */
  function Mark(i: Info, p: nat): (r: Info)
    requires Consistent(i) && p < |i.checked| && !i.checked[p]
    ensures Consistent(r) && r.checked == i.checked[p := true] && r.count == i.count + 1 && r.state == i.state
  {
    CountUpdate(i.checked, p, true);
    Info(i.checked[p := true], i.count + 1, i.state)
  }

  /** Clears the flag at `p` if it was set, and uncounts it. */
  function Unmark(i: Info, p: nat): (r: Info)
    requires Consistent(i) && p < |i.checked|
    ensures Consistent(r) && r.checked == i.checked[p := false] && r.state == i.state
  {
    CountUpdate(i.checked, p, false);
    if i.checked[p] then Info(i.checked[p := false], i.count - 1, i.state)
    else i
  }

  /** The buffers chat_attest_verify compares with memcmp have fixed sizes:
      session ids SID_LENGTH bytes and table hashes ASSOCTABLE_HASH_LENGTH
      bytes, so comparing the whole sequences is comparing those bytes. */
  predicate FixedSizes(ourSid: seq<byte>, sid: seq<byte>, ourHash: Option<seq<byte>>, hash: seq<byte>) {
    |ourSid| == SID_LENGTH && |sid| == SID_LENGTH && |hash| == ASSOCTABLE_HASH_LENGTH
    && (ourHash.Some? ==> |ourHash.value| == ASSOCTABLE_HASH_LENGTH)
  }

  /** chat_attest_verify, given our session id and our table hash (none when
      it cannot be computed). The result says whether the call failed and,
      if not, whether the participant at `pos` attested correctly. */
  function AfterVerify(i: Info, ourSid: seq<byte>, sid: seq<byte>, ourHash: Option<seq<byte>>,
                  hash: seq<byte>, pos: nat): (r: (Info, Outcome<bool>))
    requires Consistent(i) && FixedSizes(ourSid, sid, ourHash, hash)
    ensures Consistent(r.0) && |r.0.checked| == |i.checked| && r.0.state == i.state
    ensures pos >= |i.checked| ==> r == (i, Failed)
    ensures pos < |i.checked| ==> r.0.checked == i.checked[pos := r.1 == Ok(true)]
  {
    if pos >= |i.checked| then (i, Failed)
    else
      var cleared := Unmark(i, pos);
      if ourSid != sid then (cleared, Ok(false))
      else match ourHash
        case None => (cleared, Failed)
        case Some(h) =>
          if h == hash then (Mark(cleared, pos), Ok(true)) else (cleared, Ok(false))
  }

  /** The outcome of a call: failure, or success with a value. */
  datatype Outcome<T> = Ok(value: T) | Failed

  /** What the attestation code may change in a chat context. */
  datatype Session = Session(info: Option<Info>, msgState: MsgState)

  /** What it only reads: who we are, our session id, and the participants. */
  datatype Setting = Setting(origin: Origin, participants: seq<Participant>)

  /** A session whose attestation state fits the participant list. */
  ghost predicate Fits(env: Setting, s: Session) {
    |env.origin.sid| == SID_LENGTH &&
    (s.info.Some? ==> Consistent(s.info.value) && |s.info.value.checked| == |env.participants|)
  }

  /** chat_attest_create_our_message: our Attest message, carrying our
      session id and our table hash; none if the hash fails. */
  function OurMessage(env: Setting, sha: Sha512): (r: Option<Message>)
    requires |env.origin.sid| == SID_LENGTH
    ensures r.None? <==> TableHash(env.participants, sha).None?
    ensures r.Some? ==> (WellFormed(r.value) && r.value.msgType == Attest
      && r.value.payload == AttestPayload(env.origin.sid, TableHash(env.participants, sha).value))
  {
    match TableHash(env.participants, sha)
    case None => None
    case Some(h) => Some(Create(env.origin, AttestPayload(env.origin.sid, h)))
  }

  /** The state after a call and its outcome. */
  datatype Step = Step(session: Session, outcome: Outcome<Option<Message>>)

  /** Our position gets marked and our Attest message produced, unless we
      are already marked. */
  function SelfMark(env: Setting, i: Info, p: nat, sha: Sha512): (r: (Info, Outcome<Option<Message>>))
    requires |env.origin.sid| == SID_LENGTH && Consistent(i) && p < |i.checked|
    ensures Consistent(r.0) && |r.0.checked| == |i.checked| && r.0.state == i.state
    ensures i.checked[p] ==> r == (i, Ok(None))
    ensures !i.checked[p] && r.1.Ok? ==> r.0 == Mark(i, p) && r.1.value.Some?
    ensures r.1.Failed? ==> r.0 == i
    ensures !i.checked[p] ==> (r.1.Failed? <==> OurMessage(env, sha).None?)
    ensures r.1.Ok? && r.1.value.Some? ==> r.1.value == OurMessage(env, sha)
  {
    if i.checked[p] then (i, Ok(None))
    else match OurMessage(env, sha)
      case None => (i, Failed)
      case Some(m) => (Mark(i, p), Ok(Some(m)))
  }

  /** chat_attest_init. */
  function AfterInit(env: Setting, s: Session, sha: Sha512): (r: Step)
    requires Fits(env, s)
    ensures Fits(env, r.session) && r.session.info.Some? && r.session.msgState == s.msgState
    ensures s.info.None? ==> |r.session.info.value.checked| == |env.participants|
    ensures r.outcome.Ok? ==> r.session.info.value.state == AttestAwaiting
    ensures r.outcome.Ok? && r.outcome.value.Some? ==> r.outcome.value == OurMessage(env, sha)
  {
    var i := if s.info.Some? then s.info.value else FreshInfo(|env.participants|);
    match Position(env.participants, env.origin.accountName)
    case None => Step(Session(Some(i), s.msgState), Failed)
    case Some(p) =>
      var (j, o) := SelfMark(env, i, p, sha);
      if o.Failed? then Step(Session(Some(j), s.msgState), Failed)
      else Step(Session(Some(Info(j.checked, j.count, AttestAwaiting)), s.msgState), o)
  }

  /** The messages the attestation handler accepts the payload of. */
  predicate AttestShaped(m: Message) {
    m.msgType == Attest ==> m.payload.AttestPayload? && Shaped(m.payload)
  }

  /** chat_attest_is_my_message: the attestation code claims exactly the
      messages with Attest's type byte, which carry the session id and are
      signed. */
  function IsMyMessage(m: Message): (r: bool)
    ensures Proper(m.msgType) ==> (r <==> TypeByte(m.msgType) == TypeByte(Attest))
    ensures r ==> ContainsSid(m.msgType) && ShouldBeSigned(m.msgType)
  {
    m.msgType == Attest
  }

  /** chat_attest_handle_message. */
  function AfterHandle(env: Setting, s: Session, m: Message, sha: Sha512): (r: Step)
    requires Fits(env, s) && AttestShaped(m)
    ensures Fits(env, r.session) && r.session.info.Some?
    ensures s.info.None? ==> |r.session.info.value.checked| == |env.participants|
    ensures m.msgType != Attest ==> r.outcome.Failed? && r.session.msgState == s.msgState
    ensures s.info.Some? && s.info.value.state != AttestAwaiting ==> r == Step(s, Failed)
    ensures r.outcome.Failed? ==> r.session.msgState == s.msgState
    ensures r.outcome.Ok? ==> var i := r.session.info.value;
      (i.state == AttestFinished <==> Ready(i))
      && r.session.msgState == (if Ready(i) then Encrypted else s.msgState)
    ensures r.outcome.Ok? && r.outcome.value.Some? ==> r.outcome.value == OurMessage(env, sha)
  {
    var i := if s.info.Some? then s.info.value else FreshInfo(|env.participants|);
    var failed := Step(Session(Some(i), s.msgState), Failed);
    if m.msgType != Attest || i.state != AttestAwaiting then failed
    else match Position(env.participants, m.senderName)
      case None => failed
      case Some(their) =>
        var (v, res) := AfterVerify(i, env.origin.sid, m.payload.sid, TableHash(env.participants, sha),
                               m.payload.assocTableHash, their);
        if res != Ok(true) then Step(Session(Some(v), s.msgState), Failed)
        else match Position(env.participants, env.origin.accountName)
          case None => Step(Session(Some(v), s.msgState), Failed)
          case Some(our) =>
            var (j, o) := SelfMark(env, v, our, sha);
            if o.Failed? then Step(Session(Some(j), s.msgState), Failed)
            else if Ready(j) then Step(Session(Some(Info(j.checked, j.count, AttestFinished)), Encrypted), o)
            else Step(Session(Some(j), s.msgState), o)
  }

  // ---------------------------------------------------------------------
  // Properties of the operations.

  /** A message the attestation code does not claim is refused by its
      handler, and the message state stays as it was. */
  lemma HandleRefusesOthers(env: Setting, s: Session, m: Message, sha: Sha512)
    requires Fits(env, s) && AttestShaped(m) && !IsMyMessage(m)
    ensures AfterHandle(env, s, m, sha).outcome.Failed?
    ensures AfterHandle(env, s, m, sha).session.msgState == s.msgState
  {
  }

  /** A participant is marked exactly when it is in range, its session id is
      ours and its table hash is ours. */
  lemma VerifyMarksIff(i: Info, ourSid: seq<byte>, sid: seq<byte>, ourHash: Option<seq<byte>>, hash: seq<byte>, pos: nat)
    requires Consistent(i) && FixedSizes(ourSid, sid, ourHash, hash)
    ensures var r := AfterVerify(i, ourSid, sid, ourHash, hash, pos);
      (r.1 == Ok(true) <==> pos < |i.checked| && ourSid == sid && ourHash == Some(hash))
      && (r.1.Failed? <==> pos >= |i.checked| || (ourSid == sid && ourHash.None?))
  {
  }

  /** The table hash is only consulted once the session id matched. */
  lemma VerifyHashOnlyAfterSid(i: Info, ourSid: seq<byte>, sid: seq<byte>, h1: Option<seq<byte>>, h2: Option<seq<byte>>, hash: seq<byte>, pos: nat)
    requires Consistent(i) && ourSid != sid
    requires FixedSizes(ourSid, sid, h1, hash) && FixedSizes(ourSid, sid, h2, hash)
    ensures AfterVerify(i, ourSid, sid, h1, hash, pos) == AfterVerify(i, ourSid, sid, h2, hash, pos)
  {
  }

  /** A participant who attested before and fails now is unchecked, and the
      count drops by one. */
  lemma FailedReattestation(i: Info, ourSid: seq<byte>, sid: seq<byte>, ourHash: Option<seq<byte>>, hash: seq<byte>, pos: nat)
    requires Consistent(i) && FixedSizes(ourSid, sid, ourHash, hash) && pos < |i.checked| && i.checked[pos]
    requires AfterVerify(i, ourSid, sid, ourHash, hash, pos).1 != Ok(true)
    ensures var r := AfterVerify(i, ourSid, sid, ourHash, hash, pos).0;
      !r.checked[pos] && r.count + 1 == i.count
  {
    CountUpdate(i.checked, pos, false);
  }

  /** A second chat_attest_init after a successful one changes nothing and
      produces no message. */
  lemma InitTwice(env: Setting, s: Session, sha: Sha512)
    requires Fits(env, s) && AfterInit(env, s, sha).outcome.Ok?
    ensures var t := AfterInit(env, s, sha).session; AfterInit(env, t, sha) == Step(t, Ok(None))
  {
    var t := AfterInit(env, s, sha).session;
    var p := Position(env.participants, env.origin.accountName).value;
    assert t.info.value.checked[p];
  }

  /** chat_attest_init marks our own position and keeps every other flag of
      an existing round. */
  lemma InitMarksUs(env: Setting, s: Session, sha: Sha512)
    requires Fits(env, s) && AfterInit(env, s, sha).outcome.Ok?
    ensures var p := Position(env.participants, env.origin.accountName);
      var i := AfterInit(env, s, sha).session.info.value;
      p.Some? && i.checked[p.value]
      && (s.info.Some? ==> forall k :: 0 <= k < |i.checked| && k != p.value ==> i.checked[k] == s.info.value.checked[k])
  {
  }

  /** A successful chat_attest_handle_message means the sender sent our
      session id and our table hash, and both the sender and we are now
      checked. */
  lemma HandleSuccess(env: Setting, s: Session, m: Message, sha: Sha512)
    requires Fits(env, s) && AttestShaped(m) && AfterHandle(env, s, m, sha).outcome.Ok?
    ensures m.msgType == Attest && m.payload.sid == env.origin.sid
    ensures TableHash(env.participants, sha) == Some(m.payload.assocTableHash)
    ensures var their := Position(env.participants, m.senderName);
      var our := Position(env.participants, env.origin.accountName);
      var i := AfterHandle(env, s, m, sha).session.info.value;
      their.Some? && our.Some? && i.checked[their.value] && i.checked[our.value]
  {
    var i := if s.info.Some? then s.info.value else FreshInfo(|env.participants|);
    var their := Position(env.participants, m.senderName).value;
    VerifyMarksIff(i, env.origin.sid, m.payload.sid, TableHash(env.participants, sha), m.payload.assocTableHash, their);
  }

  /** A successful chat_attest_handle_message sends our Attest message
      exactly when we were not yet checked and the sender is someone else:
      verifying the sender sets the sender's flag, so our flag is clear
      after it exactly then. */
  lemma HandleEmits(env: Setting, s: Session, m: Message, sha: Sha512)
    requires Fits(env, s) && AttestShaped(m) && AfterHandle(env, s, m, sha).outcome.Ok?
    ensures var i := if s.info.Some? then s.info.value else FreshInfo(|env.participants|);
      var their := Position(env.participants, m.senderName);
      var our := Position(env.participants, env.origin.accountName);
      their.Some? && our.Some? && our.value < |i.checked|
      && (AfterHandle(env, s, m, sha).outcome.value.Some? <==> !i.checked[our.value] && our.value != their.value)
  {
    var i := if s.info.Some? then s.info.value else FreshInfo(|env.participants|);
    var their := Position(env.participants, m.senderName).value;
    VerifyMarksIff(i, env.origin.sid, m.payload.sid, TableHash(env.participants, sha), m.payload.assocTableHash, their);
  }

  /** The round finishes exactly when every participant is checked. */
  lemma HandleFinishesWhenAllChecked(env: Setting, s: Session, m: Message, sha: Sha512)
    requires Fits(env, s) && AttestShaped(m) && AfterHandle(env, s, m, sha).outcome.Ok?
    ensures var i := AfterHandle(env, s, m, sha).session.info.value;
      i.state == AttestFinished <==> forall k :: 0 <= k < |i.checked| ==> i.checked[k]
  {
  }

  // ---------------------------------------------------------------------
  // The state in place.

  /** ChatAttestInfo: `size` flags, their count and the round's state. */
  class AttestInfo {
    const size: nat
    const checked: array<bool>
    var checkedCount: nat
    var state: AttestState

    /** The allocation and zeroing done by chat_attest_info_init. */
    constructor (size: nat)
      ensures this.size == size && fresh(checked) && View() == FreshInfo(size)
    {
      this.size := size;
      checked := new bool[size](_ => false);
      checkedCount := 0;
      state := AttestAwaiting;
      new;
      assert checked[..] == seq(size, _ => false);
    }

    ghost function View(): Info
      reads this, checked
    {
      Info(checked[..], checkedCount, state)
    }

    ghost predicate Valid()
      reads this, checked
    {
      size == checked.Length && Consistent(View())
    }

    /** chat_attest_is_ready: every participant is checked. */
    function IsReady(): (r: bool)
      requires Valid()
      reads this, checked
      ensures r <==> forall k :: 0 <= k < checked.Length ==> checked[k]
    {
      assert Ready(View()) == (checkedCount == size);
      checkedCount == size
    }
  }

  /** The parts of OtrlChatContext the attestation round reads and writes. */
  class ChatContext {
    const origin: Origin
    const participants: seq<Participant>
    var attestInfo: AttestInfo?
    var msgState: MsgState

    ghost function Env(): Setting {
      Setting(origin, participants)
    }

    ghost function Footprint(): set<object>
      reads this
    {
      {this} + if attestInfo == null then {} else {attestInfo, attestInfo.checked}
    }

    ghost function Model(): Session
      reads Footprint()
    {
      Session(if attestInfo == null then None else Some(attestInfo.View()), msgState)
    }

    ghost predicate Valid()
      reads Footprint()
    {
      |origin.sid| == SID_LENGTH &&
      (attestInfo != null ==> attestInfo.Valid() && attestInfo.size == |participants|)
    }

    lemma ValidFits()
      requires Valid()
      ensures Fits(Env(), Model())
    {
    }

    /** chat_attest_info_init: replaces the round by a fresh one sized to the
        participant list. */
    method InfoInit()
      requires Valid()
      modifies this
      ensures Valid() && msgState == old(msgState)
      ensures attestInfo != null && fresh(attestInfo) && fresh(attestInfo.checked)
      ensures Model().info == Some(FreshInfo(|participants|))
    {
      attestInfo := new AttestInfo(|participants|);
    }

    /** chat_attest_verify_assoctable_hash: fails when our table hash cannot
        be computed, and otherwise says whether `hash` equals it. */
    method VerifyAssocTableHash(hash: seq<byte>, sha: Sha512) returns (err: bool, res: bool)
      requires |hash| == ASSOCTABLE_HASH_LENGTH
      ensures err <==> TableHash(participants, sha).None?
      ensures !err ==> (res <==> TableHash(participants, sha) == Some(hash))
    {
      var ours := AssocTableHash(participants, sha);
      if ours.None? {
        return true, false;
      }
      return false, ours.value == hash;
    }

    /** chat_attest_verify. */
    method Verify(sid: seq<byte>, hash: seq<byte>, pos: nat, sha: Sha512) returns (err: bool, res: bool)
      requires Valid() && attestInfo != null
      requires |sid| == SID_LENGTH && |hash| == ASSOCTABLE_HASH_LENGTH
      modifies attestInfo, attestInfo.checked
      ensures Valid()
      ensures var r := AfterVerify(old(attestInfo.View()), origin.sid, sid, TableHash(participants, sha), hash, pos);
        attestInfo.View() == r.0 && (err <==> r.1.Failed?) && (r.1.Ok? ==> res == r.1.value)
    {
      var info := attestInfo;
      if pos >= info.size {
        return true, false;
      }
      if info.checked[pos] {
        CountUpdate(info.checked[..], pos, false);
        info.checked[pos] := false;
        info.checkedCount := info.checkedCount - 1;
      }
      assert info.View() == Unmark(old(info.View()), pos);
      res := origin.sid == sid;
      if res {
        err, res := VerifyAssocTableHash(hash, sha);
        if err {
          return;
        }
      }
      if res {
        CountUpdate(info.checked[..], pos, true);
        info.checked[pos] := true;
        info.checkedCount := info.checkedCount + 1;
      }
      err := false;
    }

    /** chat_attest_create_our_message. */
    method CreateOurMessage(sha: Sha512) returns (r: Option<Message>)
      requires Valid()
      ensures r == OurMessage(Env(), sha)
    {
      var h := AssocTableHash(participants, sha);
      if h.None? {
        return None;
      }
      r := Some(Create(origin, AttestPayload(origin.sid, h.value)));
    }

    /** Marks our own position and produces our Attest message, unless we are
        already marked. */
    method MarkOurselves(our: nat, sha: Sha512) returns (err: bool, msg: Option<Message>)
      requires Valid() && attestInfo != null && our < attestInfo.size
      modifies attestInfo, attestInfo.checked
      ensures Valid()
      ensures var r := SelfMark(Env(), old(attestInfo.View()), our, sha);
        attestInfo.View() == r.0 && (err <==> r.1.Failed?) && (r.1.Ok? ==> msg == r.1.value)
    {
      var info := attestInfo;
      msg := None;
      err := false;
      if !info.checked[our] {
        msg := CreateOurMessage(sha);
        if msg.None? {
          return true, None;
        }
        CountUpdate(info.checked[..], our, true);
        info.checked[our] := true;
        info.checkedCount := info.checkedCount + 1;
      }
    }

    /** chat_attest_init. */
    method Init(sha: Sha512) returns (err: bool, msg: Option<Message>)
      requires Valid()
      modifies Footprint()
      ensures Valid()
      ensures var r := AfterInit(Env(), old(Model()), sha);
        Model() == r.session && (err <==> r.outcome.Failed?) && (r.outcome.Ok? ==> msg == r.outcome.value)
    {
      if attestInfo == null {
        InfoInit();
      }
      var our := Position(participants, origin.accountName);
      if our.None? {
        return true, None;
      }
      err, msg := MarkOurselves(our.value, sha);
      if err {
        return;
      }
      attestInfo.state := AttestAwaiting;
    }

    /** chat_attest_handle_message. */
    method HandleMessage(m: Message, sha: Sha512) returns (err: bool, msg: Option<Message>)
      requires Valid() && AttestShaped(m)
      modifies Footprint()
      ensures Valid()
      ensures var r := AfterHandle(Env(), old(Model()), m, sha);
        Model() == r.session && (err <==> r.outcome.Failed?) && (r.outcome.Ok? ==> msg == r.outcome.value)
    {
      if attestInfo == null {
        InfoInit();
      }
      if m.msgType != Attest || attestInfo.state != AttestAwaiting {
        return true, None;
      }
      var their := Position(participants, m.senderName);
      if their.None? {
        return true, None;
      }
      var res: bool;
      err, res := Verify(m.payload.sid, m.payload.assocTableHash, their.value, sha);
      if err || !res {
        return true, None;
      }
      var our := Position(participants, origin.accountName);
      if our.None? {
        return true, None;
      }
      err, msg := MarkOurselves(our.value, sha);
      if err {
        return;
      }
      if attestInfo.IsReady() {
        attestInfo.state := AttestFinished;
        msgState := Encrypted;
      }
    }
  }

  /** chat_attest_assoctable_hash: feeds every participant's serialized key
      to the digest in list order, failing at the first participant without
      one. */
  method AssocTableHash(ps: seq<Participant>, sha: Sha512) returns (r: Option<seq<byte>>)
    ensures r == TableHash(ps, sha)
  {
    var fed: seq<byte> := [];
    var i := 0;
    while i < |ps|
      invariant i <= |ps| && TableKeys(ps[..i]) == Some(fed)
    {
      match ps[i].signKey
      case None =>
        return None;
      case Some(k) =>
        assert ps[..i + 1] == ps[..i] + [Participant(ps[i].name, Some(k))];
        TableKeysAppend(ps[..i], k, ps[i].name);
        fed := fed + k;
      i := i + 1;
    }
    assert ps[..i] == ps;
    r := Some(sha(fed)[..ASSOCTABLE_HASH_LENGTH]);
  }
}
