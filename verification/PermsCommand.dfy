/** The handler of setp and getp (src/modules/bot_perms.c:12-45), working on the stored table. */
module PermsCommand {
  import opened CStrings
  import opened Options
  import opened HashTable
  import opened Permissions
  import opened PermissionRuns

  /** Which message the sender gets. */
  datatype Reply =
    | Silent
    | Usage
    | Changed(host: string, level: int)
    | Refused(host: string, level: int)
    | Shows(mask: string, level: int)
    | Own(level: int)

  function ReplyTo(t: Table, senderLevel: int, cmdname: string, args: string, atoi: string -> int): Reply {
    if cmdname == "" then Silent
    else if cmdname[0] == 's' then
      var i := IndexOf(args, ' ');
      if i == |args| then Usage
      else
        var host, level := args[i + 1..], atoi(args[..i]);
        if HandleCmd(senderLevel, cmdname, args, atoi).Some? then Changed(host, level) else Refused(host, level)
    else if cmdname[0] == 'g' then
      if args != "" && senderLevel >= PERMS_HOP
      then Shows(args, if |args| > 128 then 0 else Lookup(LevelsOf(t), args))
      else Own(senderLevel)
    else Silent
  }

  /** The answers to setp: usage without a space, else whether the level was set, with the host and level
      that were asked for. */
  lemma SetpReplies(t: Table, senderLevel: int, name: string, number: string, host: string, atoi: string -> int)
    requires name != "" && name[0] == 's' && ' ' !in number
    ensures ReplyTo(t, senderLevel, name, number, atoi) == Usage
    ensures ReplyTo(t, senderLevel, name, number + " " + host, atoi) ==
      if senderLevel >= 40000 && atoi(number) < senderLevel then Changed(host, atoi(number))
      else Refused(host, atoi(number))
  {
    SplitAtSpace(number, host);
    NoSpaceNoIndex(number);
  }

  lemma NoSpaceNoIndex(s: string)
    requires ' ' !in s
    ensures IndexOf(s, ' ') == |s|
  {
  }

  /** The answers to getp: the level of the mask asked for, for senders from 25000 on, else the sender's
      own; a mask of more than 128 bytes has level 0. Names that begin otherwise get no answer. */
  lemma GetpReplies(t: Table, senderLevel: int, name: string, args: string, atoi: string -> int)
    ensures name != "" && name[0] == 'g' ==>
      ReplyTo(t, senderLevel, name, args, atoi) ==
        if args == "" || senderLevel < 25000 then Own(senderLevel)
        else Shows(args, if |args| > 128 then 0 else Lookup(LevelsOf(t), args))
    ensures name == "" || name[0] !in {'s', 'g'} ==> ReplyTo(t, senderLevel, name, args, atoi) == Silent
  {
  }

  function Applied(t: Table, write: Option<Write>): Table {
    if write.Some? then SetLevel(t, write.value.host, write.value.level) else t
  }

  /** handle_cmd. The argument text is split in place; only an authorised setp changes the table. */
  method Handle(store: PermissionStore, senderLevel: int, cmdname: string, args: array<char>, atoi: string -> int)
    returns (reply: Reply)
    requires store.Valid() && !store.locked && NUL in args[..]
    requires args != store.pbuf && args !in store.perm_map.Repr
    requires var write := HandleCmd(senderLevel, cmdname, CStr(args[..]), atoi);
      write.Some? ==> |store.perm_map.table[Hash(write.value.host)]| < 0x8000
    requires Queries(senderLevel, cmdname, CStr(args[..])) ==>
      FitsPbuf(LevelsOf(store.perm_map.table), CStr(args[..])) || |CStr(args[..])| > 128
    modifies args, store, store.pbuf, store.perm_map.Repr
    ensures store.Valid()
    ensures store.perm_map.table
      == Applied(old(store.perm_map.table), HandleCmd(senderLevel, cmdname, old(CStr(args[..])), atoi))
    ensures reply == ReplyTo(old(store.perm_map.table), senderLevel, cmdname, old(CStr(args[..])), atoi)
    ensures store.locked <==>
      Queries(senderLevel, cmdname, old(CStr(args[..]))) && |old(CStr(args[..]))| > 128
  {
    if cmdname == "" { return Silent; }
    var text := CStr(args[..]);
    if cmdname[0] == 's' {
      reply := SetCommand(store, senderLevel, cmdname, args, text, atoi);
    } else if cmdname[0] == 'g' {
      if |text| > 0 && senderLevel >= PERMS_HOP {
        var level, _ := store.Get(text);
        reply := Shows(text, level);
      } else {
        reply := Own(senderLevel);
      }
    } else {
      reply := Silent;
    }
  }

  method SetCommand(store: PermissionStore, senderLevel: int, ghost cmdname: string, args: array<char>,
                    ghost text: string, atoi: string -> int)
    returns (reply: Reply)
    requires store.Valid() && !store.locked && NUL in args[..] && text == CStr(args[..])
    requires cmdname != "" && cmdname[0] == 's'
    requires args != store.pbuf && args !in store.perm_map.Repr
    requires var write := HandleCmd(senderLevel, cmdname, text, atoi);
      write.Some? ==> |store.perm_map.table[Hash(write.value.host)]| < 0x8000
    modifies args, store, store.perm_map.Repr
    ensures store.Valid() && !store.locked
    ensures store.perm_map.table == Applied(old(store.perm_map.table), HandleCmd(senderLevel, cmdname, text, atoi))
    ensures reply == ReplyTo(old(store.perm_map.table), senderLevel, cmdname, text, atoi)
  {
    var i := IndexOf(CStr(args[..]), ' ');
    if i == |CStr(args[..])| { return Usage; }
    SplitAt(args, i);
    var number, host := CStr(args[..]), CStr(args[i + 1..]);
    var level := atoi(number);
    if senderLevel >= PERMS_OP && level < senderLevel {
      store.Set(host, level);
      reply := Changed(host, level);
    } else {
      reply := Refused(host, level);
    }
  }

  /** Overwriting the separator leaves two strings. */
  method SplitAt(args: array<char>, i: nat)
    requires NUL in args[..] && i < |CStr(args[..])|
    modifies args
    ensures CStr(args[..]) == old(CStr(args[..]))[..i] && CStr(args[i + 1..]) == old(CStr(args[..]))[i + 1..]
  {
    ghost var text := CStr(args[..]);
    ghost var n := |text|;
    assert forall k :: 0 <= k < n ==> text[k] in text && args[k] == text[k];
    assert args[..n] == text;
    args[i] := NUL;
    CStrIs(args[..], text[..i]);
    CStrIs(args[i + 1..], text[i + 1..]);
  }

  // ---- the steps of a run, on the stored table --------------------------------------------------

  /** The reading step of PermissionRuns is what permissions_get does: level, table and mutex. */
  method ReadOn(store: PermissionStore, ghost w: World, ghost id: nat, host: string) returns (level: int)
    requires store.Valid() && !store.locked && NulFree(host)
    requires w.table == store.perm_map.table && !w.locked
    requires |host| <= 126 || (|host| == 127 && HashTable.Get(w.table, host) != 0) || |host| > 128
    modifies store, store.pbuf
    ensures store.Valid()
    ensures Read(w, id, Some(host)) == World(store.perm_map.table, w.pending[id := level], store.locked)
  {
    var probes;
    level, probes := store.Get(host);
  }

  /** The handling step is what the handler does. */
  method HandleOn(store: PermissionStore, ghost w: World, ghost id: nat, senderLevel: int, cmdname: string,
                  args: array<char>, atoi: string -> int)
    returns (reply: Reply)
    requires store.Valid() && !store.locked && NUL in args[..]
    requires args != store.pbuf && args !in store.perm_map.Repr
    requires var write := HandleCmd(senderLevel, cmdname, CStr(args[..]), atoi);
      write.Some? ==> |store.perm_map.table[Hash(write.value.host)]| < 0x8000
    requires Queries(senderLevel, cmdname, CStr(args[..])) ==>
      FitsPbuf(LevelsOf(store.perm_map.table), CStr(args[..])) || |CStr(args[..])| > 128
    requires w.table == store.perm_map.table && !w.locked && id in w.pending && w.pending[id] == senderLevel
    modifies args, store, store.pbuf, store.perm_map.Repr
    ensures store.Valid()
    ensures Handled(w, id, cmdname, old(CStr(args[..])), atoi)
      == World(store.perm_map.table, w.pending - {id}, store.locked)
  {
    reply := Handle(store, senderLevel, cmdname, args, atoi);
  }
}
