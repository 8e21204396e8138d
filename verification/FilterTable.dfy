/**
  The filters of an ISO 15765 channel, kept twice: by the driver (driver/src/channels.rs), which picks
  the slot, and by the firmware (firmware/channel.cpp, firmware/comm_channel_iso15765.cpp), which sets up
  the hardware. Commands and their replies are taken to arrive.
 */
module FilterTable {
  import opened Bytes

  const MAX_FILTERS: nat := 10
  const FLOW_CONTROL_FILTER: u32 := 3
  const CAN_CHANNEL_ID: u32 := 0
  const KLINE_CHANNEL_ID: u32 := 1

  datatype Status =
    | NoError | Failed | ExceededLimit | NullParameter
    | ChannelInUse | InvalidChannelId | InvalidMsgId | InvalidFilterId

  // ---------------------------------------------------------------------------------------------
  // Requests on the wire

  /** Little-endian bytes of a word */
  function WordBytes(w: u32): (b: seq<u8>)
    ensures |b| == 4
  {
    var q1 := w / 0x100;
    var q2 := q1 / 0x100;
    [w % 0x100, q1 % 0x100, q2 % 0x100, q2 / 0x100]
  }

  /** `little_endian_decode` */
  function Decode(b: seq<u8>): u32
    requires |b| >= 4
  {
    var (b0: int, b1: int, b2: int, b3: int) := (b[0], b[1], b[2], b[3]);
    b3 * 0x100_0000 + b2 * 0x1_0000 + b1 * 0x100 + b0
  }

  lemma DecodeIsLittleEndian(b: seq<u8>)
    requires |b| >= 4
    ensures Decode(b) == LittleEndian(b[..4])
  {
    var d := b[..4];
    assert d[1..][1..] == d[2..] && d[2..][1..] == d[3..] && d[3..][1..] == [];
    assert LittleEndian(d[3..]) == b[3] && LittleEndian(d[2..]) == LittleEndian(d[3..]) * 0x100 + b[2];
    assert LittleEndian(d[1..]) == LittleEndian(d[2..]) * 0x100 + b[1];
  }

  lemma WordRoundTrip(w: u32)
    ensures Decode(WordBytes(w)) == w
  {
  }

  function Words(ws: seq<u32>): (b: seq<u8>)
    ensures |b| == 4 * |ws|
  {
    if ws == [] then [] else WordBytes(ws[0]) + Words(ws[1..])
  }

  /** The `k`-th word of the arguments of a message */
  function Word(args: seq<u8>, k: nat): u32
    requires |args| >= 4 * k + 4
  {
    Decode(args[4 * k..])
  }

  lemma {:induction false} WordAt(ws: seq<u32>, rest: seq<u8>, k: nat)
    requires k < |ws|
    ensures Word(Words(ws) + rest, k) == ws[k]
    decreases k
  {
    ConcatAssociative(WordBytes(ws[0]), Words(ws[1..]), rest);
    var tail := Words(ws[1..]) + rest;
    assert Words(ws) + rest == WordBytes(ws[0]) + tail;
    if k == 0 {
      assert (WordBytes(ws[0]) + tail)[0..][..4] == WordBytes(ws[0]);
      WordRoundTrip(ws[0]);
    } else {
      WordAt(ws[1..], rest, k - 1);
      assert (WordBytes(ws[0]) + tail)[4 * k..] == tail[4 * (k - 1)..];
    }
  }

  /** What the caller of `add_filter` asks for */
  datatype FilterSpec = FilterSpec(kind: u32, mask: seq<u8>, pattern: seq<u8>, flowControl: seq<u8>) {
    /** The lengths are sent as 32-bit words. */
    predicate Representable() {
      |mask| < 0x1_0000_0000 && |pattern| < 0x1_0000_0000 && |flowControl| < 0x1_0000_0000
    }

    /** What the firmware accepts on an ISO 15765 channel */
    predicate WellFormed() {
      kind == FLOW_CONTROL_FILTER && |mask| == |pattern| == |flowControl| == 4
    }

    function Header(slot: u32): (ws: seq<u32>)
      requires Representable()
      ensures |ws| == 6
    {
      [CAN_CHANNEL_ID, slot, kind, |mask|, |pattern|, |flowControl|]
    }

    function Data(): seq<u8> { mask + pattern + flowControl }
  }

  /** The arguments of the request, cut to the size of a message by `new_with_args`. */
  function AddRequest(s: FilterSpec, slot: u32): seq<u8>
    requires s.Representable()
  {
    var dst := Words(s.Header(slot)) + s.Data();
    dst[..Min(|dst|, 8188)]
  }

  // ---------------------------------------------------------------------------------------------
  // The firmware's table

  datatype Entry = Entry(mask: u32, pattern: u32, flowControl: u32)

  /** `used_mailboxes`, and the ids stored with each; the hardware filter is set to the same ids. */
  datatype Table = Table(used: seq<bool>, entries: seq<Entry>) {
    predicate Sized(mailboxes: nat) { |used| == |entries| == mailboxes }
  }

  function NewTable(mailboxes: nat): Table {
    Table(seq(mailboxes, _ => false), seq(mailboxes, _ => Entry(0, 0, 0)))
  }

  /** The three ids of a request with data of the right lengths */
  function EntryOf(data: seq<u8>): Entry
    requires |data| >= 12
  {
    Entry(Id(data[..4]), Id(data[4..8]), Id(data[8..12]))
  }

  /** The lengths in the header are 4 only if the data follow. */
  predicate Complete(args: seq<u8>) {
    |args| >= 24 && (Word(args, 3) == Word(args, 4) == Word(args, 5) == 4 ==> |args| >= 36)
  }

  /** `ISO15765Channel::addFilter` on the arguments of a request */
  function FirmwareAdd(t: Table, args: seq<u8>): (Table, Status)
    requires |t.used| == |t.entries| && Complete(args)
  {
    var slot := Word(args, 1);
    if Word(args, 2) != FLOW_CONTROL_FILTER then (t, Failed)
    else if Word(args, 3) != 4 || Word(args, 4) != 4 || Word(args, 5) != 4 then (t, Failed)
    else if slot >= |t.used| then (t, ExceededLimit)
    else if t.used[slot] then (t, Failed)
    else (Table(t.used[slot := true], t.entries[slot := EntryOf(args[24..])]), NoError)
  }

  /** `add_channel_filter` */
  function HandleAdd(channel: Option<Table>, args: seq<u8>): (Option<Table>, Status)
    requires Complete(args) && (channel.Some? ==> |channel.value.used| == |channel.value.entries|)
  {
    if Word(args, 2) == FLOW_CONTROL_FILTER && Word(args, 5) == 0 then (channel, NullParameter)
    else if Word(args, 0) != CAN_CHANNEL_ID && Word(args, 0) != KLINE_CHANNEL_ID then (channel, InvalidChannelId)
    else if channel.None? then (channel, InvalidChannelId)
    else
      var (t, status) := FirmwareAdd(channel.value, args);
      (Some(t), status)
  }

  /** `del_channel_filter` and `ISO15765Channel::removeFilter`. The code indexes its table without a check. */
  function HandleRemove(channel: Option<Table>, slot: nat): (Option<Table>, Status)
    requires channel.Some? ==> |channel.value.used| == |channel.value.entries| && slot < |channel.value.used|
  {
    if channel.None? then (channel, InvalidChannelId)
    else if channel.value.used[slot] then
      var t := channel.value;
      (Some(Table(t.used[slot := false], t.entries[slot := t.entries[slot].(flowControl := 0)])), NoError)
    else (channel, InvalidFilterId)
  }

  /** `setup_channel`; `busOk` is whether the CAN controller could be set up. */
  function HandleOpen(channel: Option<Table>, mailboxes: nat, busOk: bool): (Option<Table>, Status) {
    if channel.Some? then (channel, ChannelInUse)
    else if busOk then (Some(NewTable(mailboxes)), NoError)
    else (channel, Failed)
  }

  /** `delete_channel` */
  function HandleClose(channel: Option<Table>): (Option<Table>, Status) {
    if channel.Some? then (None, NoError) else (channel, InvalidChannelId)
  }

  // ---------------------------------------------------------------------------------------------
  // The driver's table

  /** The first slot whose flag is 0, from `i` on, or 99. */
  function FreeSlot(filters: seq<u8>, i: nat): (r: nat)
    requires i <= |filters| <= MAX_FILTERS
    ensures r == 99 <==> forall j :: i <= j < |filters| ==> filters[j] != 0
    ensures r != 99 ==> i <= r < |filters| && filters[r] == 0
    ensures r != 99 ==> forall j :: i <= j < r ==> filters[j] != 0
    decreases |filters| - i
  {
    if i == |filters| then 99 else if filters[i] == 0 then i else FreeSlot(filters, i + 1)
  }

  /** Driver and firmware of one adapter: the channel as each of them sees it. */
  datatype System = System(mailboxes: nat, driver: Option<seq<u8>>, firmware: Option<Table>)

  datatype Command =
    | Open(busOk: bool) | Close
    | Add(spec: FilterSpec) | Remove(slot: nat) | RemoveAll

  /** Both sides agree on whether the channel is open and, slot by slot, on the filters. */
  predicate Agree(s: System) {
    && s.mailboxes <= MAX_FILTERS
    && (s.driver.Some? <==> s.firmware.Some?)
    && (s.driver.Some? ==>
        && |s.driver.value| == MAX_FILTERS && s.firmware.value.Sized(s.mailboxes)
        && (forall i :: 0 <= i < s.mailboxes ==> (s.driver.value[i] != 0 <==> s.firmware.value.used[i]))
        && (forall i :: s.mailboxes <= i < MAX_FILTERS ==> s.driver.value[i] == 0))
  }

  /** `create_channel` */
  function OpenChannel(s: System, busOk: bool): (System, Status)
  {
    if s.driver.Some? then (s, ChannelInUse)
    else
      var (firmware, status) := HandleOpen(s.firmware, s.mailboxes, busOk);
      (System(s.mailboxes, if status.NoError? then Some(seq(MAX_FILTERS, _ => 0)) else None, firmware), status)
  }

  /** `destroy_channel`, which takes every reply for success */
  function CloseChannel(s: System): (System, Status) {
    if s.driver.None? then (s, InvalidChannelId)
    else (System(s.mailboxes, None, HandleClose(s.firmware).0), NoError)
  }

  lemma RequestIsComplete(f: FilterSpec, slot: u32)
    requires f.Representable()
    ensures var args := AddRequest(f, slot);
            && Complete(args)
            && (forall k :: 0 <= k < 6 ==> Word(args, k) == f.Header(slot)[k])
            && (f.WellFormed() ==> |args| == 36 && args[24..] == f.Data())
  {
    var args := AddRequest(f, slot);
    var rest := args[24..];
    assert args == Words(f.Header(slot)) + rest;
    forall k | 0 <= k < 6 ensures Word(args, k) == f.Header(slot)[k] {
      WordAt(f.Header(slot), rest, k);
    }
    assert Word(args, 3) == |f.mask| && Word(args, 4) == |f.pattern| && Word(args, 5) == |f.flowControl|;
  }

  /** `add_filter` */
  function AfterAdd(s: System, f: FilterSpec): (System, Status)
    requires Agree(s) && f.Representable()
  {
    if s.driver.None? then (s, InvalidChannelId)
    else
      var slot := FreeSlot(s.driver.value, 0);
      if slot == 99 then (s, ExceededLimit)
      else
        RequestIsComplete(f, slot);
        var (firmware, status) := HandleAdd(s.firmware, AddRequest(f, slot));
        (System(s.mailboxes, if status.NoError? then Some(s.driver.value[slot := 1]) else s.driver, firmware), status)
  }

  /** `remove_filter`; the code panics on slots above the table. */
  function AfterRemove(s: System, slot: nat): (System, Status)
    requires Agree(s) && slot < MAX_FILTERS
  {
    if s.driver.None? then (s, InvalidChannelId)
    else if s.driver.value[slot] == 0 then (s, InvalidMsgId)
    else
      var (firmware, status) := HandleRemove(s.firmware, slot);
      (System(s.mailboxes, if status.NoError? then Some(s.driver.value[slot := 0]) else s.driver, firmware), status)
  }

  /** `remove_all_filters` from slot `i` on, by the snapshot taken at its start */
  function RemoveFrom(s: System, populated: seq<u8>, i: nat): (r: (System, Status))
    requires Agree(s) && i <= |populated| <= MAX_FILTERS
    ensures Agree(r.0)
    decreases |populated| - i
  {
    if i == |populated| then (s, NoError)
    else if populated[i] == 0 then RemoveFrom(s, populated, i + 1)
    else
      RemoveMeaning(s, i);
      var (t, status) := AfterRemove(s, i);
      if status.NoError? then RemoveFrom(t, populated, i + 1) else (t, status)
  }

  function AfterRemoveAll(s: System): (System, Status)
    requires Agree(s)
  {
    if s.driver.None? then (s, InvalidChannelId) else RemoveFrom(s, s.driver.value, 0)
  }

  /** Slots are below 10 and lengths fit their words. */
  predicate Valid(c: Command) {
    (c.Add? ==> c.spec.Representable()) && (c.Remove? ==> c.slot < MAX_FILTERS)
  }

  function Execute(s: System, c: Command): (System, Status)
    requires Agree(s) && Valid(c)
  {
    match c
    case Open(busOk) => OpenChannel(s, busOk)
    case Close => CloseChannel(s)
    case Add(f) => AfterAdd(s, f)
    case Remove(slot) => AfterRemove(s, slot)
    case RemoveAll => AfterRemoveAll(s)
  }

  // ---------------------------------------------------------------------------------------------
  // Main results

  /** The filters in force: the slots in use and the ids stored with them. */
  ghost function Filters(s: System): map<nat, Entry>
    requires Agree(s)
  {
    if s.firmware.None? then map[]
    else map i: nat | i < s.mailboxes && s.firmware.value.used[i] :: s.firmware.value.entries[i]
  }

  /** What a caller expects `add_filter` to have stored */
  function Requested(f: FilterSpec): Entry
    requires f.WellFormed()
  {
    Entry(Id(f.mask), Id(f.pattern), Id(f.flowControl))
  }

  lemma DataIsRequested(f: FilterSpec)
    requires f.WellFormed()
    ensures |f.Data()| == 12 && EntryOf(f.Data()) == Requested(f)
  {
    var data := f.Data();
    assert data[..4] == f.mask[..4] && data[4..8] == f.pattern[..4] && data[8..12] == f.flowControl[..4];
    assert f.mask[..4] == f.mask && f.pattern[..4] == f.pattern && f.flowControl[..4] == f.flowControl;
  }

  /** What the firmware makes of the words and data of a request */
  lemma WordsAnswered(t: Table, f: FilterSpec, slot: nat, args: seq<u8>)
    requires |t.used| == |t.entries| && (slot < |t.used| ==> !t.used[slot]) && Complete(args)
    requires Word(args, 0) == CAN_CHANNEL_ID && Word(args, 1) == slot && Word(args, 2) == f.kind
    requires Word(args, 3) == |f.mask| && Word(args, 4) == |f.pattern| && Word(args, 5) == |f.flowControl|
    requires f.WellFormed() ==> args[24..] == f.Data()
    ensures var (firmware, status) := HandleAdd(Some(t), args);
            && (status.NoError? <==> f.WellFormed() && slot < |t.used|)
            && firmware == Some(if status.NoError?
                                then Table(t.used[slot := true], t.entries[slot := Requested(f)])
                                else t)
  {
    if f.WellFormed() {
      DataIsRequested(f);
    }
  }

  /** A request of the driver, as the firmware's channel answers it */
  lemma RequestAnswered(s: System, f: FilterSpec, slot: nat)
    requires Agree(s) && f.Representable() && s.driver.Some? && slot < MAX_FILTERS
    requires slot < s.mailboxes ==> !s.firmware.value.used[slot]
    ensures Complete(AddRequest(f, slot))
    ensures var (firmware, status) := HandleAdd(s.firmware, AddRequest(f, slot));
            var t := s.firmware.value;
            && (status.NoError? <==> f.WellFormed() && slot < s.mailboxes)
            && (if status.NoError?
                then firmware == Some(Table(t.used[slot := true], t.entries[slot := Requested(f)]))
                else firmware == s.firmware)
  {
    RequestIsComplete(f, slot);
    var args := AddRequest(f, slot);
    assert Word(args, 0) == CAN_CHANNEL_ID && Word(args, 1) == slot && Word(args, 2) == f.kind;
    assert Word(args, 3) == |f.mask| && Word(args, 4) == |f.pattern| && Word(args, 5) == |f.flowControl|;
    WordsAnswered(s.firmware.value, f, slot, args);
  }

  /** `add_filter` takes the least free slot and makes exactly the requested filter, provided the channel
      is open, the request is a flow control filter of three 4-byte ids and that slot has a mailbox;
      otherwise nothing changes on either side. */
  lemma AddMeaning(s: System, f: FilterSpec)
    requires Agree(s) && f.Representable()
    ensures var (r, status) := AfterAdd(s, f);
            var slot := if s.driver.Some? then FreeSlot(s.driver.value, 0) else 99;
            && Agree(r)
            && (status.NoError? <==> f.WellFormed() && slot < s.mailboxes)
            && (if status.NoError?
                then slot !in Filters(s) && Filters(r) == Filters(s)[slot := Requested(f)]
                  && (forall i :: 0 <= i < slot ==> i in Filters(s))
                else r == s)
  {
    if s.driver.Some? && FreeSlot(s.driver.value, 0) != 99 {
      RequestAnswered(s, f, FreeSlot(s.driver.value, 0));
    }
  }

  /** `remove_filter` removes exactly the filter in the slot, if there is one. */
  lemma RemoveMeaning(s: System, slot: nat)
    requires Agree(s) && slot < MAX_FILTERS
    ensures var (r, status) := AfterRemove(s, slot);
            && Agree(r)
            && (status.NoError? <==> slot in Filters(s))
            && Filters(r) == Filters(s) - {slot}
            && (!status.NoError? ==> r == s)
  {
  }

  lemma {:induction false} RemoveFromMeaning(s: System, populated: seq<u8>, i: nat)
    requires Agree(s) && i <= |populated| == MAX_FILTERS && s.driver.Some?
    requires forall j :: 0 <= j < MAX_FILTERS ==> s.driver.value[j] == if j < i then 0 else populated[j]
    ensures RemoveFrom(s, populated, i).1.NoError?
    ensures var r := RemoveFrom(s, populated, i).0;
            r.driver == Some(seq(MAX_FILTERS, _ => 0)) && Filters(r) == map[]
    decreases |populated| - i
  {
    if i == |populated| {
      assert s.driver.value == seq(MAX_FILTERS, _ => 0);
    } else if populated[i] == 0 {
      RemoveFromMeaning(s, populated, i + 1);
    } else {
      RemoveMeaning(s, i);
      RemoveFromMeaning(AfterRemove(s, i).0, populated, i + 1);
    }
  }

  /** `remove_all_filters` on an open channel empties both tables. */
  lemma RemoveAllMeaning(s: System)
    requires Agree(s) && s.driver.Some?
    ensures var (r, status) := AfterRemoveAll(s);
            status.NoError? && Agree(r) && r.driver == Some(seq(MAX_FILTERS, _ => 0)) && Filters(r) == map[]
  {
    RemoveFromMeaning(s, s.driver.value, 0);
  }

  /** A channel opens exactly when it is closed and the bus can be set up, and then has no filters; a
      close leaves it closed on both sides. */
  lemma OpenCloseMeaning(s: System, busOk: bool)
    requires Agree(s)
    ensures var (r, status) := OpenChannel(s, busOk);
            && Agree(r)
            && (status.NoError? <==> s.firmware.None? && busOk)
            && (if status.NoError? then r.firmware.Some? && Filters(r) == map[] else r == s)
            && (status.NoError? ==> forall e :: e in r.firmware.value.entries ==> e.flowControl == 0)
    ensures var (r, status) := CloseChannel(s);
            && Agree(r) && r.driver.None? && r.firmware.None?
            && (status.NoError? <==> s.firmware.Some?)
  {
  }

  /** Why adding fails: the reasons in the order in which they are found. */
  lemma AddStatus(s: System, f: FilterSpec)
    requires Agree(s) && f.Representable()
    ensures var status := AfterAdd(s, f).1;
            var free := if s.driver.Some? then FreeSlot(s.driver.value, 0) else 99;
            if s.driver.None? then status == InvalidChannelId
            else if forall i :: 0 <= i < MAX_FILTERS ==> s.driver.value[i] != 0 then status == ExceededLimit
            else if f.kind == 3 && f.flowControl == [] then status == NullParameter
            else if f.kind != 3 || |f.mask| != 4 || |f.pattern| != 4 || |f.flowControl| != 4 then status == Failed
            else if free >= s.mailboxes then status == ExceededLimit
            else status == NoError
  {
    if s.driver.Some? && FreeSlot(s.driver.value, 0) != 99 {
      RequestIsComplete(f, FreeSlot(s.driver.value, 0));
      HeaderWords(f, FreeSlot(s.driver.value, 0));
    }
  }

  lemma HeaderWords(f: FilterSpec, slot: u32)
    requires f.Representable()
    ensures var args := AddRequest(f, slot);
            && Complete(args) && Word(args, 0) == 0 && Word(args, 1) == slot && Word(args, 2) == f.kind
            && Word(args, 3) == |f.mask| && Word(args, 4) == |f.pattern| && Word(args, 5) == |f.flowControl|
  {
    RequestIsComplete(f, slot);
  }

  /** Why the other commands fail. */
  lemma OtherStatuses(s: System, slot: nat, busOk: bool)
    requires Agree(s) && slot < MAX_FILTERS
    ensures AfterRemove(s, slot).1 ==
              if s.driver.None? then InvalidChannelId else if s.driver.value[slot] == 0 then InvalidMsgId else NoError
    ensures AfterRemoveAll(s).1 == if s.driver.None? then InvalidChannelId else NoError
    ensures OpenChannel(s, busOk).1 == if s.driver.Some? then ChannelInUse else if busOk then NoError else Failed
    ensures CloseChannel(s).1 == if s.driver.None? then InvalidChannelId else NoError
  {
    if s.driver.Some? { RemoveAllMeaning(s); }
  }

  /** Why the firmware refuses a request, whoever sent it. */
  lemma FirmwareStatuses(t: Table, args: seq<u8>, slot: nat, busOk: bool)
    requires |t.used| == |t.entries| && slot < |t.used| && Complete(args)
    ensures HandleOpen(Some(t), |t.used|, busOk) == (Some(t), ChannelInUse)
    ensures HandleOpen(None, |t.used|, busOk).1 == if busOk then NoError else Failed
    ensures HandleClose(Some(t)) == (None, NoError) && HandleClose(None) == (None, InvalidChannelId)
    ensures HandleRemove(None, slot) == (None, InvalidChannelId)
    ensures HandleRemove(Some(t), slot).1 == if t.used[slot] then NoError else InvalidFilterId
    ensures var status := HandleAdd(Some(t), args).1;
            var (channel, at, kind) := (Word(args, 0), Word(args, 1), Word(args, 2));
            if kind == 3 && Word(args, 5) == 0 then status == NullParameter
            else if channel > 1 then status == InvalidChannelId
            else if kind != 3 || Word(args, 3) != 4 || Word(args, 4) != 4 || Word(args, 5) != 4 then status == Failed
            else if at >= |t.used| then status == ExceededLimit
            else if t.used[at] then status == Failed
            else status == NoError
    ensures HandleAdd(None, args).1
            == if Word(args, 2) == 3 && Word(args, 5) == 0 then NullParameter else InvalidChannelId
  {
  }

  /** Removing a filter also forgets its reply id, so that no first frame is answered under it. */
  lemma RemovedEntry(t: Table, slot: nat)
    requires |t.used| == |t.entries| && slot < |t.used| && t.used[slot]
    ensures var r := HandleRemove(Some(t), slot).0;
            && r.Some? && !r.value.used[slot] && r.value.entries[slot].flowControl == 0
            && r.value.entries[slot].mask == t.entries[slot].mask
            && r.value.entries[slot].pattern == t.entries[slot].pattern
            && (forall i :: 0 <= i < |t.used| && i != slot ==>
                 r.value.used[i] == t.used[i] && r.value.entries[i] == t.entries[i])
  {
  }

  lemma ExecuteKeepsAgreement(s: System, c: Command)
    requires Agree(s) && Valid(c)
    ensures Agree(Execute(s, c).0)
  {
    match c
    case Open(_) =>
    case Close =>
    case Add(f) => AddMeaning(s, f);
    case Remove(slot) => RemoveMeaning(s, slot);
    case RemoveAll =>
  }

  /** The system after a run of commands, in each of which both sides still agree. */
  function Run(s: System, commands: seq<Command>): (r: System)
    requires Agree(s) && forall c :: c in commands ==> Valid(c)
    ensures Agree(r)
    decreases |commands|
  {
    if commands == [] then s
    else
      ExecuteKeepsAgreement(s, commands[0]);
      Run(Execute(s, commands[0]).0, commands[1..])
  }

  /** After any run from a fresh start both sides agree on the channel and on every slot, and no slot
      above the mailboxes is marked. */
  lemma TablesAgree(mailboxes: nat, commands: seq<Command>)
    requires mailboxes <= MAX_FILTERS && forall c :: c in commands ==> Valid(c)
    ensures var r := Run(System(mailboxes, None, None), commands);
            && r.mailboxes == mailboxes && (r.driver.Some? <==> r.firmware.Some?)
            && (r.driver.Some? ==> forall i :: 0 <= i < MAX_FILTERS ==>
                 (r.driver.value[i] != 0 <==> i in Filters(r)))
  {
    RunKeepsMailboxes(System(mailboxes, None, None), commands);
  }

  // ---- The tables as a map -----------------------------------------------------------------

  /** What a caller has in mind: a channel that is closed, or open with filters in some of its slots. */
  datatype Expected = Closed | Opened(filters: map<nat, Entry>)

  /** The first slot from `i` on without a filter */
  function LeastFree(filters: map<nat, Entry>, i: nat): (slot: nat)
    requires i <= MAX_FILTERS
    ensures i <= slot <= MAX_FILTERS && forall j :: i <= j < slot ==> j in filters
    ensures slot < MAX_FILTERS ==> slot !in filters
    decreases MAX_FILTERS - i
  {
    if i == MAX_FILTERS || i !in filters then i else LeastFree(filters, i + 1)
  }

  function Apply(x: Expected, mailboxes: nat, c: Command): Expected {
    match c
    case Open(busOk) => if x.Closed? && busOk then Opened(map[]) else x
    case Close => Closed
    case Add(f) =>
      if x.Opened? && f.WellFormed() && LeastFree(x.filters, 0) < mailboxes
      then Opened(x.filters[LeastFree(x.filters, 0) := Requested(f)]) else x
    case Remove(slot) => if x.Opened? then Opened(x.filters - {slot}) else x
    case RemoveAll => if x.Opened? then Opened(map[]) else x
  }

  function ApplyAll(x: Expected, mailboxes: nat, commands: seq<Command>): Expected
    decreases |commands|
  {
    if commands == [] then x else ApplyAll(Apply(x, mailboxes, commands[0]), mailboxes, commands[1..])
  }

  ghost function Actual(s: System): Expected
    requires Agree(s)
  {
    if s.firmware.None? then Closed else Opened(Filters(s))
  }

  /** The slot that `add_filter` picks is the first one without a filter, as far as there are mailboxes. */
  lemma PicksLeastFree(s: System)
    requires Agree(s) && s.driver.Some?
    ensures var (slot, free) := (FreeSlot(s.driver.value, 0), LeastFree(Filters(s), 0));
            (slot < s.mailboxes <==> free < s.mailboxes) && (slot < s.mailboxes ==> slot == free)
  {
    var (slot, free) := (FreeSlot(s.driver.value, 0), LeastFree(Filters(s), 0));
    if free < s.mailboxes { assert s.driver.value[free] == 0; }
    if slot < s.mailboxes { assert slot !in Filters(s); }
  }

  lemma ExecuteIsApply(s: System, c: Command)
    requires Agree(s) && Valid(c)
    ensures Agree(Execute(s, c).0) && Execute(s, c).0.mailboxes == s.mailboxes
    ensures Actual(Execute(s, c).0) == Apply(Actual(s), s.mailboxes, c)
  {
    ExecuteKeepsAgreement(s, c);
    ExecuteKeepsMailboxes(s, c);
    match c
    case Open(busOk) => OpenCloseMeaning(s, busOk);
    case Close => OpenCloseMeaning(s, true);
    case Add(f) =>
      AddMeaning(s, f);
      if s.driver.Some? { PicksLeastFree(s); }
    case Remove(slot) => RemoveMeaning(s, slot);
    case RemoveAll => if s.driver.Some? { RemoveAllMeaning(s); }
  }

  /** After any run of commands the firmware has exactly the filters that a map would have on which each command
      does what it is for. */
  lemma {:induction false} RunIsApply(s: System, commands: seq<Command>)
    requires Agree(s) && forall c :: c in commands ==> Valid(c)
    ensures Actual(Run(s, commands)) == ApplyAll(Actual(s), s.mailboxes, commands)
    decreases |commands|
  {
    if commands == [] {
    } else {
      ExecuteIsApply(s, commands[0]);
      RunIsApply(Execute(s, commands[0]).0, commands[1..]);
    }
  }

  lemma {:induction false} RunKeepsMailboxes(s: System, commands: seq<Command>)
    requires Agree(s) && forall c :: c in commands ==> Valid(c)
    ensures Run(s, commands).mailboxes == s.mailboxes
    decreases |commands|
  {
    if commands == [] {
    } else {
      ExecuteKeepsAgreement(s, commands[0]);
      ExecuteKeepsMailboxes(s, commands[0]);
      RunKeepsMailboxes(Execute(s, commands[0]).0, commands[1..]);
    }
  }

  lemma {:induction false} RemoveFromKeepsMailboxes(s: System, populated: seq<u8>, i: nat)
    requires Agree(s) && i <= |populated| <= MAX_FILTERS
    ensures RemoveFrom(s, populated, i).0.mailboxes == s.mailboxes
    decreases |populated| - i
  {
    if i == |populated| {
    } else {
      RemoveMeaning(s, i);
      RemoveFromKeepsMailboxes(if populated[i] == 0 then s else AfterRemove(s, i).0, populated, i + 1);
    }
  }

  lemma ExecuteKeepsMailboxes(s: System, c: Command)
    requires Agree(s) && Valid(c)
    ensures Execute(s, c).0.mailboxes == s.mailboxes
  {
    if c.RemoveAll? && s.driver.Some? {
      RemoveFromKeepsMailboxes(s, s.driver.value, 0);
    }
  }

  // ---------------------------------------------------------------------------------------------
  // Both sides as they update their tables

  /** The firmware's CAN channel */
  class Firmware {
    const mailboxes: nat
    var isOpen: bool
    var used: array<bool>
    var entries: array<Entry>
    var isReceiving: bool
    var clearToSend: bool

    ghost predicate Sized()
      reads this
    {
      used.Length == entries.Length == mailboxes
    }

    ghost function Channel(): Option<Table>
      reads this, used, entries
    {
      if isOpen then Some(Table(used[..], entries[..])) else None
    }

    method SetupChannel(busOk: bool) returns (status: Status)
      requires Sized()
      modifies this
      ensures Sized() && (used == old(used) || fresh(used)) && (entries == old(entries) || fresh(entries))
      ensures (Channel(), status) == HandleOpen(old(Channel()), mailboxes, busOk)
      ensures status.NoError? ==> !isReceiving && !clearToSend
    {
      if isOpen { return ChannelInUse; }
      if !busOk { return Failed; }
      used := new bool[mailboxes](_ => false);
      entries := new Entry[mailboxes](_ => Entry(0, 0, 0));
      isOpen, isReceiving, clearToSend := true, false, false;
      assert used[..] == NewTable(mailboxes).used && entries[..] == NewTable(mailboxes).entries;
      return NoError;
    }

    method DeleteChannel() returns (status: Status)
      modifies this`isOpen
      ensures (Channel(), status) == HandleClose(old(Channel()))
    {
      if !isOpen { return InvalidChannelId; }
      isOpen := false;
      return NoError;
    }

    method AddChannelFilter(args: seq<u8>) returns (status: Status)
      requires Sized() && Complete(args)
      modifies used, entries
      ensures (Channel(), status) == HandleAdd(old(Channel()), args)
    {
      if Word(args, 2) == FLOW_CONTROL_FILTER && Word(args, 5) == 0 { return NullParameter; }
      if Word(args, 0) != CAN_CHANNEL_ID && Word(args, 0) != KLINE_CHANNEL_ID { return InvalidChannelId; }
      if !isOpen { return InvalidChannelId; }
      status := AddToTable(args);
    }

    method AddToTable(args: seq<u8>) returns (status: Status)
      requires Sized() && Complete(args)
      modifies used, entries
      ensures (Table(used[..], entries[..]), status) == FirmwareAdd(Table(old(used[..]), old(entries[..])), args)
    {
      var filterId := Word(args, 1);
      if Word(args, 2) != FLOW_CONTROL_FILTER { return Failed; }
      if Word(args, 3) != 4 { return Failed; }
      if Word(args, 4) != 4 { return Failed; }
      if Word(args, 5) != 4 { return Failed; }
      if filterId >= mailboxes { return ExceededLimit; }
      if used[filterId] { return Failed; }
      used[filterId] := true;
      entries[filterId] := EntryOf(args[24..]);
      return NoError;
    }

    /** A removed filter also ends the message being received and the clearance of the one being sent. */
    method DelChannelFilter(slot: nat) returns (status: Status)
      requires Sized() && (isOpen ==> slot < mailboxes)
      modifies used, entries, this`isReceiving, this`clearToSend
      ensures (Channel(), status) == HandleRemove(old(Channel()), slot)
      ensures if status.NoError? then !isReceiving && !clearToSend
              else isReceiving == old(isReceiving) && clearToSend == old(clearToSend)
    {
      if !isOpen { return InvalidChannelId; }
      if !used[slot] { return InvalidFilterId; }
      used[slot] := false;
      entries[slot] := entries[slot].(flowControl := 0);
      isReceiving, clearToSend := false, false;
      return NoError;
    }
  }

  /** The driver's CAN channel */
  class Driver {
    const device: Firmware
    var isOpen: bool
    var filters: array<u8>

    ghost function State(): System
      reads this, filters, device, device.used, device.entries
    {
      System(device.mailboxes, if isOpen then Some(filters[..]) else None, device.Channel())
    }

    ghost predicate Sized()
      reads this, device
    {
      filters.Length == MAX_FILTERS && device.Sized()
    }

    /** The driver attached to an adapter without an open channel */
    constructor (adapter: Firmware)
      requires adapter.Sized() && adapter.mailboxes <= MAX_FILTERS && !adapter.isOpen
      ensures device == adapter && Sized() && Agree(State()) && State().driver.None?
    {
      device, isOpen := adapter, false;
      filters := new u8[MAX_FILTERS];
    }

    method CreateChannel(busOk: bool) returns (status: Status)
      requires Sized() && Agree(State())
      modifies this, device
      ensures Sized()
      ensures (State(), status) == OpenChannel(old(State()), busOk)
    {
      if isOpen { return ChannelInUse; }
      status := device.SetupChannel(busOk);
      if status.NoError? {
        filters := new u8[MAX_FILTERS](_ => 0);
        isOpen := true;
        assert filters[..] == seq(MAX_FILTERS, _ => 0);
      }
    }

    method DestroyChannel() returns (status: Status)
      requires Sized() && Agree(State())
      modifies this`isOpen, device`isOpen
      ensures Sized()
      ensures (State(), status) == CloseChannel(old(State()))
    {
      if !isOpen { return InvalidChannelId; }
      isOpen := false;
      var reply := device.DeleteChannel();
      return NoError;
    }

    method AddFilter(f: FilterSpec) returns (status: Status, id: nat)
      requires Sized() && Agree(State()) && f.Representable()
      modifies filters, device.used, device.entries
      ensures Sized()
      ensures (State(), status) == AfterAdd(old(State()), f)
      ensures status.NoError? ==> id == FreeSlot(old(filters[..]), 0)
    {
      id := 99;
      if !isOpen { return InvalidChannelId, id; }
      for i := 0 to MAX_FILTERS
        invariant id == 99 && FreeSlot(filters[..], 0) == FreeSlot(filters[..], i)
        invariant unchanged(filters, device.used, device.entries)
      {
        if filters[i] == 0 { id := i; break; }
      }
      if id == 99 { return ExceededLimit, id; }
      RequestIsComplete(f, id);
      status := device.AddChannelFilter(AddRequest(f, id));
      if status.NoError? { filters[id] := 1; }
    }

    method RemoveFilter(id: nat) returns (status: Status)
      requires Sized() && Agree(State()) && isOpen && id < MAX_FILTERS
      modifies filters, device.used, device.entries, device`isReceiving, device`clearToSend
      ensures Sized()
      ensures (State(), status) == AfterRemove(old(State()), id)
      ensures status.NoError? ==> !device.isReceiving && !device.clearToSend
    {
      if filters[id] == 0 { return InvalidMsgId; }
      status := device.DelChannelFilter(id);
      if status.NoError? { filters[id] := 0; }
    }

    method RemoveAllFilters() returns (status: Status)
      requires Sized() && Agree(State()) && isOpen
      modifies filters, device.used, device.entries, device`isReceiving, device`clearToSend
      ensures Sized()
      ensures (State(), status) == AfterRemoveAll(old(State()))
    {
      var populated := filters[..];
      for i := 0 to MAX_FILTERS
        invariant Sized() && Agree(State())
        invariant RemoveFrom(old(State()), populated, 0) == RemoveFrom(State(), populated, i)
      {
        if populated[i] != 0 {
          RemoveMeaning(State(), i);
          status := RemoveFilter(i);
          if !status.NoError? { return; }
        }
      }
      return NoError;
    }
  }
}
