/**
 Messages as field lists. The kinds are those that the library writes and reads with the same fields; a payload
 whose id the library does not know is kept as raw bytes.
 */
module Messages {
  import opened Bits
  import opened Errors
  import opened Varint
  import opened Strings
  import opened Packer
  import opened Unpacker
  import opened Fields

  datatype Kind =
    // system messages
    | INFO | MAP_CHANGE | CON_READY | INPUTTIMING | RCON_AUTH_STATUS | RCON_LINE | READY | INPUT | RCON_CMD
    | RCON_AUTH | REQUEST_MAP_DATA | RCON_CMD_ADD | RCON_CMD_REM
    // game messages
    | SV_MOTD | SV_BROADCAST | SV_CHAT | SV_KILLMSG | SV_SOUNDGLOBAL | SV_READYTOENTER | SV_WEAPONPICKUP
    | SV_EMOTICON | SV_VOTECLEAROPTIONS | SV_VOTEOPTIONADD | SV_VOTEOPTIONREMOVE | SV_VOTESET | CL_STARTINFO

  datatype Lookup = Known(kind: Kind) | NotModelled | NoSuchId

  function IsSystem(k: Kind): (b: bool) {
    match k
    case INFO | MAP_CHANGE | CON_READY | INPUTTIMING | RCON_AUTH_STATUS | RCON_LINE | READY | INPUT | RCON_CMD => true
    case RCON_AUTH | REQUEST_MAP_DATA | RCON_CMD_ADD | RCON_CMD_REM => true
    case _ => false
  }

  /** The message ids of `ddproto_packer_init_msg`. */
  function Id(k: Kind): (id: nat)
    ensures id < 32
  {
    match k
    case INFO => 1
    case MAP_CHANGE => 2
    case CON_READY => 4
    case INPUTTIMING => 9
    case RCON_AUTH_STATUS => 10
    case RCON_LINE => 11
    case READY => 14
    case INPUT => 16
    case RCON_CMD => 17
    case RCON_AUTH => 18
    case REQUEST_MAP_DATA => 19
    case RCON_CMD_ADD => 25
    case RCON_CMD_REM => 26
    case SV_MOTD => 1
    case SV_BROADCAST => 2
    case SV_CHAT => 3
    case SV_KILLMSG => 4
    case SV_SOUNDGLOBAL => 5
    case SV_READYTOENTER => 8
    case SV_WEAPONPICKUP => 9
    case SV_EMOTICON => 10
    case SV_VOTECLEAROPTIONS => 11
    case SV_VOTEOPTIONADD => 13
    case SV_VOTEOPTIONREMOVE => 14
    case SV_VOTESET => 15
    case CL_STARTINFO => 20
  }

  /** The cases of `decode_system_message` and `decode_game_message`. */
  function KindOf(system: bool, id: int): (k: Lookup) {
    if system then
      match id
      case 1 => Known(INFO)
      case 2 => Known(MAP_CHANGE)
      case 4 => Known(CON_READY)
      case 9 => Known(INPUTTIMING)
      case 10 => Known(RCON_AUTH_STATUS)
      case 11 => Known(RCON_LINE)
      case 14 => Known(READY)
      case 16 => Known(INPUT)
      case 17 => Known(RCON_CMD)
      case 18 => Known(RCON_AUTH)
      case 19 => Known(REQUEST_MAP_DATA)
      case 25 => Known(RCON_CMD_ADD)
      case 26 => Known(RCON_CMD_REM)
      case 3 => NotModelled
      case 7 => NotModelled
      case 15 => NotModelled
      case _ => NoSuchId
    else
      match id
      case 1 => Known(SV_MOTD)
      case 2 => Known(SV_BROADCAST)
      case 3 => Known(SV_CHAT)
      case 4 => Known(SV_KILLMSG)
      case 5 => Known(SV_SOUNDGLOBAL)
      case 8 => Known(SV_READYTOENTER)
      case 9 => Known(SV_WEAPONPICKUP)
      case 10 => Known(SV_EMOTICON)
      case 11 => Known(SV_VOTECLEAROPTIONS)
      case 13 => Known(SV_VOTEOPTIONADD)
      case 14 => Known(SV_VOTEOPTIONREMOVE)
      case 15 => Known(SV_VOTESET)
      case 20 => Known(CL_STARTINFO)
      case 6 => NotModelled
      case 12 => NotModelled
      case 17 => NotModelled
      case _ => NoSuchId
  }

  /** A message with the fields of its kind, or the bytes of one that is not known. */
  datatype Message =
    | Info(version: seq<byte>, password: seq<byte>)
    | MapChange(name: seq<byte>, crc: int32, size: int32)
    | ConReady
    | InputTiming(intendedTick: int32, timeLeft: int32)
    | RconAuthStatus(authed: bool, cmdlist: bool)
    | RconLine(line: seq<byte>)
    | Ready
    | Input(ackGameTick: int32, predictionTick: int32, size: int32, direction: int32, targetX: int32,
            targetY: int32, jump: int32, fire: int32, hook: int32, playerFlags: int32, wantedWeapon: int32,
            nextWeapon: int32, prevWeapon: int32)
    | RconCmd(command: seq<byte>)
    | RconAuth(name: seq<byte>, password: seq<byte>, sendRconCmds: bool)
    | RequestMapData(chunk: int32)
    | RconCmdAdd(name: seq<byte>, help: seq<byte>, params: seq<byte>)
    | RconCmdRem(name: seq<byte>)
    | Motd(message: seq<byte>)
    | Broadcast(message: seq<byte>)
    | Chat(team: int32, clientId: int32, message: seq<byte>)
    | KillMsg(killerId: int32, victimId: int32, weapon: int32, modeSpecial: int32)
    | SoundGlobal(soundId: int32)
    | ReadyToEnter
    | WeaponPickup(weapon: int32)
    | Emoticon(clientId: int32, emoticon: int32)
    | VoteClearOptions
    | VoteOptionAdd(description: seq<byte>)
    | VoteOptionRemove(description: seq<byte>)
    | VoteSet(timeout: int32, description: seq<byte>, reason: seq<byte>)
    | StartInfo(name: seq<byte>, clan: seq<byte>, country: int32, skin: seq<byte>, useCustomColor: bool,
                colorBody: int32, colorFeet: int32)
    | Unknown(raw: seq<byte>)

  function KindOfMessage(m: Message): (k: Kind)
    requires !m.Unknown?
  {
    match m
    case Info(_, _) => INFO
    case MapChange(_, _, _) => MAP_CHANGE
    case ConReady => CON_READY
    case InputTiming(_, _) => INPUTTIMING
    case RconAuthStatus(_, _) => RCON_AUTH_STATUS
    case RconLine(_) => RCON_LINE
    case Ready => READY
    case Input(_, _, _, _, _, _, _, _, _, _, _, _, _) => INPUT
    case RconCmd(_) => RCON_CMD
    case RconAuth(_, _, _) => RCON_AUTH
    case RequestMapData(_) => REQUEST_MAP_DATA
    case RconCmdAdd(_, _, _) => RCON_CMD_ADD
    case RconCmdRem(_) => RCON_CMD_REM
    case Motd(_) => SV_MOTD
    case Broadcast(_) => SV_BROADCAST
    case Chat(_, _, _) => SV_CHAT
    case KillMsg(_, _, _, _) => SV_KILLMSG
    case SoundGlobal(_) => SV_SOUNDGLOBAL
    case ReadyToEnter => SV_READYTOENTER
    case WeaponPickup(_) => SV_WEAPONPICKUP
    case Emoticon(_, _) => SV_EMOTICON
    case VoteClearOptions => SV_VOTECLEAROPTIONS
    case VoteOptionAdd(_) => SV_VOTEOPTIONADD
    case VoteOptionRemove(_) => SV_VOTEOPTIONREMOVE
    case VoteSet(_, _, _) => SV_VOTESET
    case StartInfo(_, _, _, _, _, _, _) => CL_STARTINFO
  }

  /** The calls of the packer in the branches of `ddproto_encode_message`, in order. */
  function PackerCalls(m: Message): (vs: seq<Value>) {
    match m
    case Info(version, password) => [VString(version), VString(password)]
    case MapChange(name, crc, size) => [VString(name), VInt(crc), VInt(size)]
    case ConReady => []
    case InputTiming(intendedTick, timeLeft) => [VInt(intendedTick), VInt(timeLeft)]
    case RconAuthStatus(authed, cmdlist) => [VBool(authed), VBool(cmdlist)]
    case RconLine(line) => [VString(line)]
    case Ready => []
    case Input(tick, prediction, size, direction, x, y, jump, fire, hook, flags, wanted, next, prev) =>
      [VInt(tick), VInt(prediction), VInt(size), VInt(direction), VInt(x), VInt(y), VInt(jump), VInt(fire),
       VInt(hook), VInt(flags), VInt(wanted), VInt(next), VInt(prev)]
    case RconCmd(command) => [VString(command)]
    case RconAuth(name, password, sendRconCmds) => [VString(name), VString(password), VBool(sendRconCmds)]
    case RequestMapData(chunk) => [VInt(chunk)]
    case RconCmdAdd(name, help, params) => [VString(name), VString(help), VString(params)]
    case RconCmdRem(name) => [VString(name)]
    case Motd(message) => [VString(message)]
    case Broadcast(message) => [VString(message)]
    case Chat(team, clientId, message) => [VInt(team), VInt(clientId), VString(message)]
    case KillMsg(killerId, victimId, weapon, modeSpecial) =>
      [VInt(killerId), VInt(victimId), VInt(weapon), VInt(modeSpecial)]
    case SoundGlobal(soundId) => [VInt(soundId)]
    case ReadyToEnter => []
    case WeaponPickup(weapon) => [VInt(weapon)]
    case Emoticon(clientId, emoticon) => [VInt(clientId), VInt(emoticon)]
    case VoteClearOptions => []
    case VoteOptionAdd(description) => [VString(description)]
    case VoteOptionRemove(description) => [VString(description)]
    case VoteSet(timeout, description, reason) => [VInt(timeout), VString(description), VString(reason)]
    case StartInfo(name, clan, country, skin, useCustomColor, colorBody, colorFeet) =>
      [VString(name), VString(clan), VInt(country), VString(skin), VBool(useCustomColor), VInt(colorBody),
       VInt(colorFeet)]
    case Unknown(_) => []
  }

  /** The calls of the unpacker in the cases of `decode_system_message` and `decode_game_message`, in order. */
  function UnpackerCalls(k: Kind): (ts: seq<FieldType>) {
    match k
    case INFO => [TString, TString]
    case MAP_CHANGE => [TString, TInt, TInt]
    case CON_READY => []
    case INPUTTIMING => [TInt, TInt]
    case RCON_AUTH_STATUS => [TBool, TBool]
    case RCON_LINE => [TString]
    case READY => []
    case INPUT => [TInt, TInt, TInt, TInt, TInt, TInt, TInt, TInt, TInt, TInt, TInt, TInt, TInt]
    case RCON_CMD => [TString]
    case RCON_AUTH => [TString, TString, TBool]
    case REQUEST_MAP_DATA => [TInt]
    case RCON_CMD_ADD => [TString, TString, TString]
    case RCON_CMD_REM => [TString]
    case SV_MOTD => [TString]
    case SV_BROADCAST => [TString]
    case SV_CHAT => [TInt, TInt, TString]
    case SV_KILLMSG => [TInt, TInt, TInt, TInt]
    case SV_SOUNDGLOBAL => [TInt]
    case SV_READYTOENTER => []
    case SV_WEAPONPICKUP => [TInt]
    case SV_EMOTICON => [TInt, TInt]
    case SV_VOTECLEAROPTIONS => []
    case SV_VOTEOPTIONADD => [TString]
    case SV_VOTEOPTIONREMOVE => [TString]
    case SV_VOTESET => [TInt, TString, TString]
    case CL_STARTINFO => [TString, TString, TInt, TString, TBool, TInt, TInt]
  }

  function AsInt(v: Value): (x: int32) {
    if v.VInt? then v.v else 0
  }

  function AsBool(v: Value): (b: bool) {
    v.VBool? && v.b
  }

  function AsString(v: Value): (s: seq<byte>) {
    if v.VString? then v.s else []
  }

  /** The fields that the cases of the decoder put the values into. */
  function Filled(k: Kind, vs: seq<Value>): (m: Message)
    requires |vs| == |UnpackerCalls(k)|
  {
    match k
    case INFO => Info(AsString(vs[0]), AsString(vs[1]))
    case MAP_CHANGE => MapChange(AsString(vs[0]), AsInt(vs[1]), AsInt(vs[2]))
    case CON_READY => ConReady
    case INPUTTIMING => InputTiming(AsInt(vs[0]), AsInt(vs[1]))
    case RCON_AUTH_STATUS => RconAuthStatus(AsBool(vs[0]), AsBool(vs[1]))
    case RCON_LINE => RconLine(AsString(vs[0]))
    case READY => Ready
    case INPUT =>
      Input(AsInt(vs[0]), AsInt(vs[1]), AsInt(vs[2]), AsInt(vs[3]), AsInt(vs[4]), AsInt(vs[5]), AsInt(vs[6]),
            AsInt(vs[7]), AsInt(vs[8]), AsInt(vs[9]), AsInt(vs[10]), AsInt(vs[11]), AsInt(vs[12]))
    case RCON_CMD => RconCmd(AsString(vs[0]))
    case RCON_AUTH => RconAuth(AsString(vs[0]), AsString(vs[1]), AsBool(vs[2]))
    case REQUEST_MAP_DATA => RequestMapData(AsInt(vs[0]))
    case RCON_CMD_ADD => RconCmdAdd(AsString(vs[0]), AsString(vs[1]), AsString(vs[2]))
    case RCON_CMD_REM => RconCmdRem(AsString(vs[0]))
    case SV_MOTD => Motd(AsString(vs[0]))
    case SV_BROADCAST => Broadcast(AsString(vs[0]))
    case SV_CHAT => Chat(AsInt(vs[0]), AsInt(vs[1]), AsString(vs[2]))
    case SV_KILLMSG => KillMsg(AsInt(vs[0]), AsInt(vs[1]), AsInt(vs[2]), AsInt(vs[3]))
    case SV_SOUNDGLOBAL => SoundGlobal(AsInt(vs[0]))
    case SV_READYTOENTER => ReadyToEnter
    case SV_WEAPONPICKUP => WeaponPickup(AsInt(vs[0]))
    case SV_EMOTICON => Emoticon(AsInt(vs[0]), AsInt(vs[1]))
    case SV_VOTECLEAROPTIONS => VoteClearOptions
    case SV_VOTEOPTIONADD => VoteOptionAdd(AsString(vs[0]))
    case SV_VOTEOPTIONREMOVE => VoteOptionRemove(AsString(vs[0]))
    case SV_VOTESET => VoteSet(AsInt(vs[0]), AsString(vs[1]), AsString(vs[2]))
    case CL_STARTINFO =>
      StartInfo(AsString(vs[0]), AsString(vs[1]), AsInt(vs[2]), AsString(vs[3]), AsBool(vs[4]), AsInt(vs[5]),
                AsInt(vs[6]))
  }

  // ----- The two sides mirror each other

  lemma SystemTypes(m: Message)
    requires !m.Unknown? && IsSystem(KindOfMessage(m))
    ensures Types(PackerCalls(m)) == UnpackerCalls(KindOfMessage(m))
  {
  }

  lemma GameTypes(m: Message)
    requires !m.Unknown? && !IsSystem(KindOfMessage(m))
    ensures Types(PackerCalls(m)) == UnpackerCalls(KindOfMessage(m))
  {
  }

  lemma SystemMirror(m: Message)
    requires !m.Unknown? && IsSystem(KindOfMessage(m)) && |PackerCalls(m)| == |UnpackerCalls(KindOfMessage(m))|
    ensures Filled(KindOfMessage(m), PackerCalls(m)) == m
  {
  }

  lemma GameMirror(m: Message)
    requires !m.Unknown? && !IsSystem(KindOfMessage(m)) && |PackerCalls(m)| == |UnpackerCalls(KindOfMessage(m))|
    ensures Filled(KindOfMessage(m), PackerCalls(m)) == m
  {
  }

  /** What the encoder packs, in the order of its calls, the decoder puts into the fields that it came from. */
  lemma CallsMirror(m: Message)
    requires !m.Unknown?
    ensures Types(PackerCalls(m)) == UnpackerCalls(KindOfMessage(m))
    ensures Filled(KindOfMessage(m), PackerCalls(m)) == m
  {
    if IsSystem(KindOfMessage(m)) {
      SystemTypes(m);
      SystemMirror(m);
    } else {
      GameTypes(m);
      GameMirror(m);
    }
  }

  lemma TypesAt(vs: seq<Value>, ts: seq<FieldType>)
    requires Types(vs) == ts
    ensures |vs| == |ts| && forall i | 0 <= i < |vs| :: TypeOf(vs[i]) == ts[i]
  {
    forall i | 0 <= i < |vs|
      ensures TypeOf(vs[i]) == ts[i]
    {
      assert Types(vs)[i] == TypeOf(vs[i]);
    }
  }

  lemma SystemMirrorBack(k: Kind, vs: seq<Value>)
    requires IsSystem(k) && |vs| == |UnpackerCalls(k)|
    requires forall i | 0 <= i < |vs| :: TypeOf(vs[i]) == UnpackerCalls(k)[i]
    ensures !Filled(k, vs).Unknown? && KindOfMessage(Filled(k, vs)) == k && PackerCalls(Filled(k, vs)) == vs
  {
    var calls := PackerCalls(Filled(k, vs));
    assert |calls| == |vs| && forall i | 0 <= i < |vs| :: calls[i] == vs[i];
  }

  lemma GameMirrorBack(k: Kind, vs: seq<Value>)
    requires !IsSystem(k) && |vs| == |UnpackerCalls(k)|
    requires forall i | 0 <= i < |vs| :: TypeOf(vs[i]) == UnpackerCalls(k)[i]
    ensures !Filled(k, vs).Unknown? && KindOfMessage(Filled(k, vs)) == k && PackerCalls(Filled(k, vs)) == vs
  {
    var calls := PackerCalls(Filled(k, vs));
    assert |calls| == |vs| && forall i | 0 <= i < |vs| :: calls[i] == vs[i];
  }

  /** What the decoder puts into the fields, the encoder packs again in the same order. */
  lemma CallsMirrorBack(k: Kind, vs: seq<Value>)
    requires Types(vs) == UnpackerCalls(k)
    ensures !Filled(k, vs).Unknown? && KindOfMessage(Filled(k, vs)) == k && PackerCalls(Filled(k, vs)) == vs
  {
    TypesAt(vs, UnpackerCalls(k));
    if IsSystem(k) {
      SystemMirrorBack(k, vs);
    } else {
      GameMirrorBack(k, vs);
    }
  }

  /** The number that stands first in a message. */
  function Tag(k: Kind): (v: int32) {
    2 * Id(k) + if IsSystem(k) then 1 else 0
  }

  lemma TagIdentifiesKind(k: Kind)
    ensures KindOf(Tag(k) % 2 == 1, Tag(k) / 2) == Known(k)
  {
  }

  function MessageBytes(m: Message): (s: seq<byte>) {
    if m.Unknown? then m.raw else EncodeInt(Tag(KindOfMessage(m))) + FieldsBytes(PackerCalls(m))
  }

  /** The packer buffer is large enough; raw messages do not go through it. */
  predicate Encodable(m: Message) {
    m.Unknown? || |MessageBytes(m)| <= PACKER_BUFFER_SIZE
  }

  /** The strings are C strings. */
  ghost predicate WellFormed(m: Message) {
    Sendable(PackerCalls(m))
  }

  /** The result of decoding; `Outside` is a kind left out here, or a string looked for behind the payload. */
  datatype Decoded = Decoded(m: Message, err: Error) | Outside

  /** `ddproto_decode_message` on a payload. */
  function DecodeMessage(payload: seq<byte>): (d: Decoded) {
    var (tag, c) := IntStep(Cursor(payload, NONE));
    match KindOf(tag % 2 == 1, tag / 2)
    case NoSuchId => Decoded(Unknown(payload), UNKNOWN_MESSAGE)
    case NotModelled => Outside
    case Known(k) =>
      if !CanReadFields(c, UnpackerCalls(k)) then Outside
      else
        var (fields, c') := ReadFields(c, UnpackerCalls(k));
        Decoded(Filled(k, fields), c'.err)
  }

  /** A raw message that will be recognised as unknown again. */
  predicate TrulyUnknown(raw: seq<byte>) {
    DecodeMessage(raw) == Decoded(Unknown(raw), UNKNOWN_MESSAGE)
  }

  /** What arrives of a message: its strings are sanitised. */
  function ReceivedMessage(m: Message): (r: Message) {
    match m
    case Info(version, password) => Info(Sanitized(version), Sanitized(password))
    case MapChange(name, crc, size) => MapChange(Sanitized(name), crc, size)
    case ConReady => m
    case InputTiming(_, _) => m
    case RconAuthStatus(_, _) => m
    case RconLine(line) => RconLine(Sanitized(line))
    case Ready => m
    case Input(_, _, _, _, _, _, _, _, _, _, _, _, _) => m
    case RconCmd(command) => RconCmd(Sanitized(command))
    case RconAuth(name, password, sendRconCmds) => RconAuth(Sanitized(name), Sanitized(password), sendRconCmds)
    case RequestMapData(_) => m
    case RconCmdAdd(name, help, params) => RconCmdAdd(Sanitized(name), Sanitized(help), Sanitized(params))
    case RconCmdRem(name) => RconCmdRem(Sanitized(name))
    case Motd(message) => Motd(Sanitized(message))
    case Broadcast(message) => Broadcast(Sanitized(message))
    case Chat(team, clientId, message) => Chat(team, clientId, Sanitized(message))
    case KillMsg(_, _, _, _) => m
    case SoundGlobal(_) => m
    case ReadyToEnter => m
    case WeaponPickup(_) => m
    case Emoticon(_, _) => m
    case VoteClearOptions => m
    case VoteOptionAdd(description) => VoteOptionAdd(Sanitized(description))
    case VoteOptionRemove(description) => VoteOptionRemove(Sanitized(description))
    case VoteSet(timeout, description, reason) => VoteSet(timeout, Sanitized(description), Sanitized(reason))
    case StartInfo(name, clan, country, skin, useCustomColor, colorBody, colorFeet) =>
      StartInfo(Sanitized(name), Sanitized(clan), country, Sanitized(skin), useCustomColor, colorBody, colorFeet)
    case Unknown(_) => m
  }

  lemma ReceivedSystemCalls(m: Message)
    requires !m.Unknown? && IsSystem(KindOfMessage(m))
    ensures !ReceivedMessage(m).Unknown? && KindOfMessage(ReceivedMessage(m)) == KindOfMessage(m)
    ensures PackerCalls(ReceivedMessage(m)) == AllReceived(PackerCalls(m))
  {
  }

  lemma ReceivedGameCalls(m: Message)
    requires !m.Unknown? && !IsSystem(KindOfMessage(m))
    ensures !ReceivedMessage(m).Unknown? && KindOfMessage(ReceivedMessage(m)) == KindOfMessage(m)
    ensures PackerCalls(ReceivedMessage(m)) == AllReceived(PackerCalls(m))
  {
  }

  lemma ReceivedCalls(m: Message)
    requires !m.Unknown?
    ensures !ReceivedMessage(m).Unknown? && KindOfMessage(ReceivedMessage(m)) == KindOfMessage(m)
    ensures PackerCalls(ReceivedMessage(m)) == AllReceived(PackerCalls(m))
  {
    if IsSystem(KindOfMessage(m)) {
      ReceivedSystemCalls(m);
    } else {
      ReceivedGameCalls(m);
    }
  }

  /** The number in front leads the decoder to the kind `k`, with the fields behind it. */
  lemma TagRoundTrip(k: Kind, rest: seq<byte>)
    ensures var (tag, c) := IntStep(Cursor(EncodeInt(Tag(k)) + rest, NONE));
            KindOf(tag % 2 == 1, tag / 2) == Known(k) && c == Cursor(rest, NONE)
  {
    IntRoundTrip(Tag(k), rest);
    TagIdentifiesKind(k);
  }

  lemma FieldsRead(k: Kind, vs: seq<Value>)
    requires Types(vs) == UnpackerCalls(k) && Sendable(vs)
    ensures DecodeMessage(EncodeInt(Tag(k)) + FieldsBytes(vs)) == Decoded(Filled(k, AllReceived(vs)), NONE)
  {
    TagRoundTrip(k, FieldsBytes(vs));
    FieldsRoundTrip(vs, []);
    assert FieldsBytes(vs) + [] == FieldsBytes(vs);
  }

  /** Decoding an encoded message gives it back, with its strings sanitised. */
  lemma MessageRoundTrip(m: Message)
    requires WellFormed(m) && (m.Unknown? ==> TrulyUnknown(m.raw))
    ensures DecodeMessage(MessageBytes(m))
         == Decoded(ReceivedMessage(m), if m.Unknown? then UNKNOWN_MESSAGE else NONE)
  {
    if !m.Unknown? {
      CallsMirror(m);
      FieldsRead(KindOfMessage(m), PackerCalls(m));
      ReceivedCalls(m);
      CallsMirror(ReceivedMessage(m));
    }
  }

  // ----- What is on the wire

  function Concat(parts: seq<seq<byte>>): (s: seq<byte>) {
    if parts == [] then [] else parts[0] + Concat(parts[1..])
  }

  /** A C string on the wire. */
  function Str(s: seq<byte>): (b: seq<byte>) {
    s + [0]
  }

  function AllBytes(vs: seq<Value>): (parts: seq<seq<byte>>)
    ensures |parts| == |vs|
  {
    seq(|vs|, i requires 0 <= i < |vs| => FieldBytes(vs[i]))
  }

  lemma {:induction false} FieldsAreConcat(vs: seq<Value>)
    ensures FieldsBytes(vs) == Concat(AllBytes(vs))
  {
    if vs == [] {
    } else {
      FieldsAreConcat(vs[1..]);
      assert AllBytes(vs)[1..] == AllBytes(vs[1..]);
    }
  }

  lemma ConcatCons(first: seq<byte>, parts: seq<seq<byte>>)
    ensures Concat([first] + parts) == first + Concat(parts)
  {
    assert ([first] + parts)[1..] == parts;
  }

  lemma BytesAreConcat(m: Message, parts: seq<seq<byte>>)
    requires !m.Unknown? && parts == [EncodeInt(Tag(KindOfMessage(m)))] + AllBytes(PackerCalls(m))
    ensures MessageBytes(m) == Concat(parts)
  {
    FieldsAreConcat(PackerCalls(m));
    ConcatCons(EncodeInt(Tag(KindOfMessage(m))), AllBytes(PackerCalls(m)));
  }

  /** The wire format, message by message: the number of the kind and the fields in their order. */
  function Wire(m: Message): (parts: seq<seq<byte>>) {
    match m
    case Info(version, password) => [EncodeInt(3), Str(version), Str(password)]
    case MapChange(name, crc, size) => [EncodeInt(5), Str(name), EncodeInt(crc), EncodeInt(size)]
    case ConReady => [EncodeInt(9)]
    case InputTiming(intendedTick, timeLeft) => [EncodeInt(19), EncodeInt(intendedTick), EncodeInt(timeLeft)]
    case RconAuthStatus(authed, cmdlist) =>
      [EncodeInt(21), EncodeInt(if authed then 1 else 0), EncodeInt(if cmdlist then 1 else 0)]
    case RconLine(line) => [EncodeInt(23), Str(line)]
    case Ready => [EncodeInt(29)]
    case Input(tick, prediction, size, direction, x, y, jump, fire, hook, flags, wanted, next, prev) =>
      [EncodeInt(33), EncodeInt(tick), EncodeInt(prediction), EncodeInt(size), EncodeInt(direction), EncodeInt(x),
       EncodeInt(y), EncodeInt(jump), EncodeInt(fire), EncodeInt(hook), EncodeInt(flags), EncodeInt(wanted),
       EncodeInt(next), EncodeInt(prev)]
    case RconCmd(command) => [EncodeInt(35), Str(command)]
    case RconAuth(name, password, sendRconCmds) =>
      [EncodeInt(37), Str(name), Str(password), EncodeInt(if sendRconCmds then 1 else 0)]
    case RequestMapData(chunk) => [EncodeInt(39), EncodeInt(chunk)]
    case RconCmdAdd(name, help, params) => [EncodeInt(51), Str(name), Str(help), Str(params)]
    case RconCmdRem(name) => [EncodeInt(53), Str(name)]
    case Motd(message) => [EncodeInt(2), Str(message)]
    case Broadcast(message) => [EncodeInt(4), Str(message)]
    case Chat(team, clientId, message) => [EncodeInt(6), EncodeInt(team), EncodeInt(clientId), Str(message)]
    case KillMsg(killerId, victimId, weapon, modeSpecial) =>
      [EncodeInt(8), EncodeInt(killerId), EncodeInt(victimId), EncodeInt(weapon), EncodeInt(modeSpecial)]
    case SoundGlobal(soundId) => [EncodeInt(10), EncodeInt(soundId)]
    case ReadyToEnter => [EncodeInt(16)]
    case WeaponPickup(weapon) => [EncodeInt(18), EncodeInt(weapon)]
    case Emoticon(clientId, emoticon) => [EncodeInt(20), EncodeInt(clientId), EncodeInt(emoticon)]
    case VoteClearOptions => [EncodeInt(22)]
    case VoteOptionAdd(description) => [EncodeInt(26), Str(description)]
    case VoteOptionRemove(description) => [EncodeInt(28), Str(description)]
    case VoteSet(timeout, description, reason) => [EncodeInt(30), EncodeInt(timeout), Str(description), Str(reason)]
    case StartInfo(name, clan, country, skin, useCustomColor, colorBody, colorFeet) =>
      [EncodeInt(40), Str(name), Str(clan), EncodeInt(country), Str(skin), EncodeInt(if useCustomColor then 1 else 0),
       EncodeInt(colorBody), EncodeInt(colorFeet)]
    case Unknown(raw) => [raw]
  }

  lemma AllBytesConcat(a: seq<Value>, b: seq<Value>)
    ensures AllBytes(a + b) == AllBytes(a) + AllBytes(b)
  {
  }

  lemma InputWire(m: Message)
    requires m.Input?
    ensures Wire(m) == [EncodeInt(Tag(KindOfMessage(m)))] + AllBytes(PackerCalls(m))
  {
    var calls := PackerCalls(m);
    AllBytesConcat(calls[..4], calls[4..8]);
    AllBytesConcat(calls[..8], calls[8..]);
    assert calls[..8] == calls[..4] + calls[4..8] && calls == calls[..8] + calls[8..];
    assert AllBytes(calls[..4]) == Wire(m)[1..5];
    assert AllBytes(calls[4..8]) == Wire(m)[5..9];
    assert AllBytes(calls[8..]) == Wire(m)[9..];
  }

  predicate IsRcon(m: Message) {
    m.RconAuthStatus? || m.RconLine? || m.RconCmd? || m.RconAuth? || m.RconCmdAdd? || m.RconCmdRem?
  }

  predicate IsVote(m: Message) {
    m.VoteClearOptions? || m.VoteOptionAdd? || m.VoteOptionRemove?
  }

  lemma RconWire(m: Message)
    requires IsRcon(m)
    ensures Wire(m) == [EncodeInt(Tag(KindOfMessage(m)))] + AllBytes(PackerCalls(m))
  {
  }

  lemma VoteWire(m: Message)
    requires IsVote(m)
    ensures Wire(m) == [EncodeInt(Tag(KindOfMessage(m)))] + AllBytes(PackerCalls(m))
  {
  }

  lemma StartInfoWire(m: Message)
    requires m.StartInfo?
    ensures Wire(m) == [EncodeInt(Tag(KindOfMessage(m)))] + AllBytes(PackerCalls(m))
  {
  }

  lemma SystemWire(m: Message)
    requires !m.Unknown? && !m.Input? && !IsRcon(m) && IsSystem(KindOfMessage(m))
    ensures Wire(m) == [EncodeInt(Tag(KindOfMessage(m)))] + AllBytes(PackerCalls(m))
  {
  }

  lemma GameWire(m: Message)
    requires !m.Unknown? && !m.StartInfo? && !IsVote(m) && !IsSystem(KindOfMessage(m))
    ensures Wire(m) == [EncodeInt(Tag(KindOfMessage(m)))] + AllBytes(PackerCalls(m))
  {
  }

  /** The encoder writes this format for every message. */
  lemma WireFormat(m: Message)
    ensures MessageBytes(m) == Concat(Wire(m))
  {
    if m.Unknown? {
      ConcatCons(m.raw, []);
      assert [m.raw] + [] == [m.raw] && m.raw + [] == m.raw;
    } else {
      if m.Input? {
        InputWire(m);
      } else if m.StartInfo? {
        StartInfoWire(m);
      } else if IsRcon(m) {
        RconWire(m);
      } else if IsVote(m) {
        VoteWire(m);
      } else if IsSystem(KindOfMessage(m)) {
        SystemWire(m);
      } else {
        GameWire(m);
      }
      BytesAreConcat(m, Wire(m));
    }
  }

  /** What is written in this format is read as the message that it stands for. */
  lemma WireRead(m: Message)
    requires WellFormed(m) && (m.Unknown? ==> TrulyUnknown(m.raw))
    ensures DecodeMessage(Concat(Wire(m)))
         == Decoded(ReceivedMessage(m), if m.Unknown? then UNKNOWN_MESSAGE else NONE)
  {
    WireFormat(m);
    MessageRoundTrip(m);
  }

  lemma ConcatOfFour(a: seq<byte>, b: seq<byte>, c: seq<byte>, d: seq<byte>)
    ensures Concat([a, b, c, d]) == a + b + c + d
  {
    ConcatCons(d, []);
    ConcatCons(c, [d]);
    ConcatCons(b, [c, d]);
    ConcatCons(a, [b, c, d]);
    assert [d] + [] == [d] && [c] + [d] == [c, d] && [b] + [c, d] == [b, c, d] && [a] + [b, c, d] == [a, b, c, d];
    assert d + [] == d && a + (b + (c + d)) == a + b + c + d;
  }

  /** A chat message, spelled out. */
  lemma ChatOnWire(team: int32, clientId: int32, message: seq<byte>)
    requires NulFree(message)
    ensures var s := EncodeInt(6) + EncodeInt(team) + EncodeInt(clientId) + (message + [0]);
            && MessageBytes(Chat(team, clientId, message)) == s
            && DecodeMessage(s) == Decoded(Chat(team, clientId, Sanitized(message)), NONE)
  {
    var m := Chat(team, clientId, message);
    WireFormat(m);
    ConcatOfFour(EncodeInt(6), EncodeInt(team), EncodeInt(clientId), Str(message));
    MessageRoundTrip(m);
  }

  lemma IdsOfTags(tag: int32)
    ensures var l := KindOf(tag % 2 == 1, tag / 2);
            && (l.Known? <==> tag in {3, 5, 9, 19, 21, 23, 29, 33, 35, 37, 39, 51, 53,
                                      2, 4, 6, 8, 10, 16, 18, 20, 22, 26, 28, 30, 40})
            && (l.NotModelled? <==> tag in {7, 15, 31, 12, 24, 34})
  {
  }

  lemma FilledIsKnown(k: Kind, vs: seq<Value>)
    requires |vs| == |UnpackerCalls(k)|
    ensures !Filled(k, vs).Unknown?
  {
  }

  /**
   The ids that are not known: a payload is kept as raw bytes if and only if the number in front is none of these. The
   six in the second set are known to the library but left out here.
   */
  lemma UnknownIds(payload: seq<byte>)
    ensures var tag := IntStep(Cursor(payload, NONE)).0;
            && (DecodeMessage(payload) == Decoded(Unknown(payload), UNKNOWN_MESSAGE) <==>
                tag !in {3, 5, 9, 19, 21, 23, 29, 33, 35, 37, 39, 51, 53,
                         2, 4, 6, 8, 10, 16, 18, 20, 22, 26, 28, 30, 40}
                && tag !in {7, 15, 31, 12, 24, 34})
            && (tag in {7, 15, 31, 12, 24, 34} ==> DecodeMessage(payload) == Decoded.Outside)
  {
    var (tag, c) := IntStep(Cursor(payload, NONE));
    IdsOfTags(tag);
    match KindOf(tag % 2 == 1, tag / 2)
    case Known(k) =>
      if CanReadFields(c, UnpackerCalls(k)) {
        FilledIsKnown(k, ReadFields(c, UnpackerCalls(k)).0);
      }
    case _ =>
  }

  /** The packer calls for a message. */
  method PackMessage(m: Message) returns (p: Packer)
    requires WellFormed(m) && !m.Unknown?
    ensures fresh(p) && fresh(p.buf) && p.Valid()
    ensures Encodable(m) ==> p.err == NONE && p.Contents() == MessageBytes(m)
    ensures !Encodable(m) ==> p.err == BUFFER_FULL
  {
    p := new Packer();
    var k := KindOfMessage(m);
    ghost var tag := EncodeInt(Tag(k));
    VarintRoundTrip(Tag(k), []);
    var e := p.AddInt(Tag(k));
    assert [] + tag == tag;
    assert p.err == NONE && p.Contents() == tag;
    AddFields(p, PackerCalls(m));
  }

  /** `memcpy` to a place inside the buffer. */
  method CopyTo(s: seq<byte>, buf: array<byte>, at: nat)
    requires at + |s| <= buf.Length
    modifies buf
    ensures buf[at..at + |s|] == s
    ensures forall i | 0 <= i < buf.Length && !(at <= i < at + |s|) :: buf[i] == old(buf[i])
  {
    forall i | 0 <= i < |s| { buf[at + i] := s[i]; }
  }

  /** `ddproto_encode_message` into a buffer with room for the message behind `at`. */
  method EncodeMessage(m: Message, buf: array<byte>, at: nat) returns (size: nat, err: Error)
    requires WellFormed(m) && at + (if Encodable(m) then |MessageBytes(m)| else 0) <= buf.Length
    modifies buf
    ensures Encodable(m) ==> err == NONE && size == |MessageBytes(m)| && buf[at..at + size] == MessageBytes(m)
    ensures !Encodable(m) ==> err == BUFFER_FULL && size == 0
    ensures err == NONE <==> m.Unknown? || |MessageBytes(m)| <= 2048
    ensures forall i | 0 <= i < buf.Length && !(at <= i < at + size) :: buf[i] == old(buf[i])
  {
    if m.Unknown? {
      CopyTo(m.raw, buf, at);
      return |m.raw|, NONE;
    }
    var p := PackMessage(m);
    if p.err != NONE {
      return 0, p.err;
    }
    CopyTo(p.buf[..p.current], buf, at);
    return p.current, NONE;
  }

  /**
   `ddproto_decode_message` on `size` bytes of a buffer. Only the payload itself is changed, by the clean-up of its
   strings.
   */
  method ReadMessage(buf: array<byte>, start: nat, size: nat) returns (m: Message, err: Error)
    requires start + size <= buf.Length && DecodeMessage(buf[start..start + size]).Decoded?
    modifies buf
    ensures Decoded(m, err) == DecodeMessage(old(buf[start..start + size]))
    ensures forall i | 0 <= i < buf.Length && !(start <= i < start + size) :: buf[i] == old(buf[i])
  {
    var u := new Unpacker(buf, start, size);
    assert u.At().rest == buf[start..start + size];
    var tag := u.GetInt();
    var system, id := tag % 2 == 1, tag / 2;
    match KindOf(system, id)
    case Known(k) =>
      var fields := GetFields(u, UnpackerCalls(k));
      return Filled(k, fields), u.err;
    case NoSuchId =>
      return Unknown(buf[start..start + size]), UNKNOWN_MESSAGE;
    case NotModelled =>
      assert false;
  }
}
