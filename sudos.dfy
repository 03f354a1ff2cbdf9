/** The text-level logic of the sudo command handler: who may use it, which
    command a message selects, the payload each command takes, and the
    replies `!exec`, `!cmd` and `!plist` compose. Every call to the messaging
    client is left to the caller; what is sent is a function of the text. */
module Sudos {

  import opened PyText
  import opened Meval

  // ---------------------------------------------------------------------------
  // Messages and the guard

  /** The fields of an incoming message the handler reads. */
  datatype Message = Message(text: Option<string>, chatId: int, chatType: string, senderId: int)

  /** `msg.get('text') and msg['chat']['type'] != 'channel'` and
      `msg['from']['id'] in sudoers`: a non-empty text, not a channel post,
      from an operator on the allow-list. */
  predicate Accepts(msg: Message, sudoers: set<int>)
  {
    && msg.text.Some? && msg.text.value != []
    && msg.chatType != "channel"
    && msg.senderId in sudoers
  }

  // ---------------------------------------------------------------------------
  // Dispatch

  /** A chat named by the command text (a string, as `split()` gives it) or the
      chat the command was sent in. */
  datatype ChatRef = ThisChat(id: int) | NamedChat(name: string)

  datatype Command =
    | Help
    | Eval(source: string)
    | PluginList(errors: bool)
    | Upload(folder: string)
    | Restart
    | Shell(command: string)
    | SendFile(path: string)
    | Delete
    | Exec(source: string)
    | Upgrade
    | Leave(target: ChatRef)
    | ChatInfo(target: ChatRef)
    | Promote
    | Backup(toSender: bool)

  /** What the handler does with a message: nothing, a command, or an
      IndexError escaping from `split()[0]` or `split()[1]`. */
  datatype Dispatch = Ignored | Crashed | Run(command: Command)

  /** The whole-text equality tests of the chain. At most one holds, so the
      order among them does not matter. */
  datatype Literal = HelpText | RestartText | DelText | UpgradeText | PromoteText | NoLiteral

  function LiteralOf(t: string, botUsername: string): Literal
  {
    if t == "!sudos" || t == "/sudos" then HelpText
    else if t == "!restart" || t == "!restart @" + botUsername then RestartText
    else if t == "!del" then DelText
    else if t == "!upgrade" then UpgradeText
    else if t == "!promote" then PromoteText
    else NoLiteral
  }

  /** The `startswith` tests of the chain; at most one holds. */
  datatype Prefix = UploadPrefix | LeavePrefix | ChatPrefix | NoPrefix

  function PrefixOf(t: string): Prefix
  {
    if StartsWith(t, "!upload") then UploadPrefix
    else if StartsWith(t, "!leave") then LeavePrefix
    else if StartsWith(t, "!chat") then ChatPrefix
    else NoPrefix
  }

  /** The `split()[0] == ...` tests of the chain; at most one holds. */
  datatype Keyword = EvalWord | PlistWord | CmdWord | DocWord | ExecWord | BackupWord | OtherWord

  function KeywordOf(w: string): Keyword
  {
    if w == "!eval" then EvalWord
    else if w == "!plist" then PlistWord
    else if w == "!cmd" then CmdWord
    else if w == "!doc" then DocWord
    else if w == "!exec" then ExecWord
    else if w == "!backup" then BackupWord
    else OtherWord
  }

  /** The `elif` chain, given the words of the text and the outcome of its
      equality and prefix tests: the first test that holds picks the command,
      and each payload is a fixed slice of the text. */
  function Select(t: string, ws: seq<string>, lit: Literal, pre: Prefix, chatId: int): (d: Dispatch)
    ensures d == Crashed ==> lit != HelpText && (ws == [] || (pre == ChatPrefix && ' ' in t && |ws| < 2))
    ensures lit != HelpText && ws == [] ==> d == Crashed
    ensures d == Ignored ==> lit == NoLiteral && pre == NoPrefix
    ensures d.Run? && d.command.Eval? ==> d.command.source == Drop(t, 6)
    ensures d.Run? && d.command.Upload? ==> d.command.folder == Drop(t, 8)
    ensures d.Run? && d.command.Shell? ==> d.command.command == Drop(t, 5)
    ensures d.Run? && d.command.SendFile? ==> d.command.path == Drop(t, 5)
    ensures d.Run? && d.command.Exec? ==> d.command.source == Drop(t, 6)
    ensures d.Run? && (d.command.Leave? || d.command.ChatInfo?) && d.command.target.NamedChat?
            ==> |ws| >= 2 && d.command.target.name == ws[1]
    ensures d.Run? && (d.command.Leave? || d.command.ChatInfo?) && d.command.target.ThisChat?
            ==> d.command.target.id == chatId
  {
    if lit == HelpText then Run(Help)
    else if ws == [] then Crashed
    else
      var kw := KeywordOf(ws[0]);
      if kw == EvalWord then Run(Eval(Drop(t, 6)))
      else if kw == PlistWord then Run(PluginList(AfterFirst(t, ' ') == "errors"))
      else if pre == UploadPrefix then Run(Upload(Drop(t, 8)))
      else if lit == RestartText then Run(Restart)
      else if kw == CmdWord then Run(Shell(Drop(t, 5)))
      else if kw == DocWord then Run(SendFile(Drop(t, 5)))
      else if lit == DelText then Run(Delete)
      else if kw == ExecWord then Run(Exec(Drop(t, 6)))
      else if lit == UpgradeText then Run(Upgrade)
      else if pre == LeavePrefix then
        Run(Leave(if |ws| == 2 then NamedChat(ws[1]) else ThisChat(chatId)))
      else if pre == ChatPrefix then
        if ' ' !in t then Run(ChatInfo(ThisChat(chatId)))
        else if |ws| < 2 then Crashed
        else Run(ChatInfo(NamedChat(ws[1])))
      else if lit == PromoteText then Run(Promote)
      else if kw == BackupWord then Run(Backup(Contains(Lower(t), "pv") || Contains(Lower(t), "privado")))
      else
        assert lit.NoLiteral? && pre.NoPrefix?;
        Ignored
  }

  /** The command a text selects (`text.split()` computed once). */
  function Route(t: string, chatId: int, botUsername: string): (d: Dispatch)
    ensures d == Crashed ==> Words(t) == [] || (PrefixOf(t) == ChatPrefix && ' ' in t && |Words(t)| < 2)
    ensures d == Ignored ==> LiteralOf(t, botUsername) == NoLiteral && PrefixOf(t) == NoPrefix
  {
    Select(t, Words(t), LiteralOf(t, botUsername), PrefixOf(t), chatId)
  }

  /** `sudos(msg)`: nothing happens unless the guard holds. */
  function Handle(msg: Message, sudoers: set<int>, botUsername: string): (d: Dispatch)
    ensures !Accepts(msg, sudoers) ==> d == Ignored
    ensures Accepts(msg, sudoers) ==> d == Route(msg.text.value, msg.chatId, botUsername)
  {
    if Accepts(msg, sudoers) then Route(msg.text.value, msg.chatId, botUsername) else Ignored
  }

  // Each branch of the chain on its own, over the test outcomes.

  lemma SelectHelp(t: string, ws: seq<string>, lit: Literal, pre: Prefix, chatId: int)
    ensures Select(t, ws, lit, pre, chatId) == Run(Help) <==> lit == HelpText
  {
  }

  lemma SelectEval(t: string, ws: seq<string>, lit: Literal, pre: Prefix, chatId: int, source: string)
    ensures Select(t, ws, lit, pre, chatId) == Run(Eval(source))
            <==> lit != HelpText && ws != [] && ws[0] == "!eval" && source == Drop(t, 6)
  {
    if ws != [] && ws[0] == "!eval" {
      assert KeywordOf(ws[0]) == EvalWord;
    }
  }

  lemma SelectShell(t: string, ws: seq<string>, lit: Literal, pre: Prefix, chatId: int, command: string)
    ensures Select(t, ws, lit, pre, chatId) == Run(Shell(command))
            <==> lit != HelpText && lit != RestartText && pre != UploadPrefix
                 && ws != [] && ws[0] == "!cmd" && command == Drop(t, 5)
  {
    if ws != [] && ws[0] == "!cmd" {
      assert KeywordOf(ws[0]) == CmdWord;
    }
  }

  lemma SelectSendFile(t: string, ws: seq<string>, lit: Literal, pre: Prefix, chatId: int, path: string)
    ensures Select(t, ws, lit, pre, chatId) == Run(SendFile(path))
            <==> lit != HelpText && lit != RestartText && pre != UploadPrefix
                 && ws != [] && ws[0] == "!doc" && path == Drop(t, 5)
  {
    if ws != [] && ws[0] == "!doc" {
      assert KeywordOf(ws[0]) == DocWord;
    }
  }

  lemma SelectExec(t: string, ws: seq<string>, lit: Literal, pre: Prefix, chatId: int, source: string)
    ensures Select(t, ws, lit, pre, chatId) == Run(Exec(source))
            <==> lit != HelpText && lit != RestartText && lit != DelText && pre != UploadPrefix
                 && ws != [] && ws[0] == "!exec" && source == Drop(t, 6)
  {
    if ws != [] && ws[0] == "!exec" {
      assert KeywordOf(ws[0]) == ExecWord;
    }
  }

  lemma SelectUpload(t: string, ws: seq<string>, lit: Literal, pre: Prefix, chatId: int, p: string)
    ensures Select(t, ws, lit, pre, chatId) == Run(Upload(p)) ==> pre == UploadPrefix && p == Drop(t, 8)
    ensures && pre == UploadPrefix && p == Drop(t, 8) && lit != HelpText
            && ws != [] && KeywordOf(ws[0]) != EvalWord && KeywordOf(ws[0]) != PlistWord
            ==> Select(t, ws, lit, pre, chatId) == Run(Upload(p))
  {
  }

  /** The command each equality test runs. */
  function LiteralCommand(l: Literal): Command
    requires l != NoLiteral
  {
    match l
    case HelpText => Help
    case RestartText => Restart
    case DelText => Delete
    case UpgradeText => Upgrade
    case PromoteText => Promote
  }

  lemma SelectLiteral(t: string, ws: seq<string>, lit: Literal, pre: Prefix, chatId: int, l: Literal)
    requires l != NoLiteral && l != HelpText
    ensures Select(t, ws, lit, pre, chatId) == Run(LiteralCommand(l)) ==> lit == l
    ensures lit == l && ws != [] && KeywordOf(ws[0]) == OtherWord && pre == NoPrefix
            ==> Select(t, ws, lit, pre, chatId) == Run(LiteralCommand(l))
  {
  }

  lemma SelectPluginList(t: string, ws: seq<string>, lit: Literal, pre: Prefix, chatId: int, errors: bool)
    ensures Select(t, ws, lit, pre, chatId) == Run(PluginList(errors))
            <==> lit != HelpText && ws != [] && ws[0] == "!plist" && errors == (AfterFirst(t, ' ') == "errors")
  {
    if ws != [] && ws[0] == "!plist" {
      assert KeywordOf(ws[0]) == PlistWord;
    }
  }

  lemma SelectLate(t: string, ws: seq<string>, lit: Literal, pre: Prefix, chatId: int)
    requires ws != [] && KeywordOf(ws[0]) == OtherWord && lit == NoLiteral
    ensures pre == LeavePrefix ==>
      Select(t, ws, lit, pre, chatId) == Run(Leave(if |ws| == 2 then NamedChat(ws[1]) else ThisChat(chatId)))
    ensures pre == ChatPrefix ==>
      Select(t, ws, lit, pre, chatId)
      == if ' ' !in t then Run(ChatInfo(ThisChat(chatId)))
         else if |ws| < 2 then Crashed else Run(ChatInfo(NamedChat(ws[1])))
  {
  }

  /** `!leave` and `!chat` are chosen only when their prefix test holds. */
  lemma SelectLateOnly(t: string, ws: seq<string>, lit: Literal, pre: Prefix, chatId: int)
    ensures Select(t, ws, lit, pre, chatId).Run? && Select(t, ws, lit, pre, chatId).command.Leave?
            ==> pre == LeavePrefix
    ensures Select(t, ws, lit, pre, chatId).Run? && Select(t, ws, lit, pre, chatId).command.ChatInfo?
            ==> pre == ChatPrefix
  {
  }

  /** The chain falls through exactly when no equality or prefix test holds
      and the first word is no keyword. */
  lemma SelectIgnored(t: string, ws: seq<string>, lit: Literal, pre: Prefix, chatId: int)
    ensures Select(t, ws, lit, pre, chatId) == Ignored
            <==> lit == NoLiteral && pre == NoPrefix && ws != [] && KeywordOf(ws[0]) == OtherWord
  {
  }

  lemma SelectBackup(t: string, ws: seq<string>, lit: Literal, pre: Prefix, chatId: int, toSender: bool)
    ensures Select(t, ws, lit, pre, chatId) == Run(Backup(toSender))
            <==> lit == NoLiteral && pre == NoPrefix && ws != [] && ws[0] == "!backup"
                 && toSender == (Contains(Lower(t), "pv") || Contains(Lower(t), "privado"))
  {
    if ws == [] || lit == HelpText {
    } else if KeywordOf(ws[0]) != BackupWord {
      assert ws[0] != "!backup";
    } else if lit != NoLiteral || pre != NoPrefix {
      assert ws[0] == "!backup";
    } else {
      assert ws[0] == "!backup";
      assert Select(t, ws, lit, pre, chatId) == Run(Backup(Contains(Lower(t), "pv") || Contains(Lower(t), "privado")));
    }
  }

  lemma SelectCrashed(t: string, ws: seq<string>, lit: Literal, pre: Prefix, chatId: int)
    requires lit != HelpText
    requires ws != [] && pre == ChatPrefix ==> KeywordOf(ws[0]) == OtherWord && lit == NoLiteral
    ensures Select(t, ws, lit, pre, chatId) == Crashed
            <==> ws == [] || (pre == ChatPrefix && ' ' in t && |ws| < 2)
  {
  }

  // What the equality and prefix tests say about each other and about the
  // first word.

  /** A text that begins with `p` neither begins with nor equals a `q` that
      differs from `p` at position `i`. */
  lemma Differ(t: string, p: string, q: string, i: nat)
    requires StartsWith(t, p) && i < |p| && i < |q| && p[i] != q[i]
    ensures !StartsWith(t, q) && t != q
  {
    assert t[i] == t[..|p|][i] == p[i];
  }

  /** `p` does not begin like any keyword: its first three characters tell
      them apart. */
  predicate NoKeywordStart(p: string)
  {
    && |p| >= 3
    && (p[0] != '!' || (p[1] !in "eb" && (p[1] != 'p' || p[2] != 'l') && (p[1] != 'c' || p[2] != 'm') && (p[1] != 'd' || p[2] != 'o')))
  }

  lemma KeywordOther(w: string, p: string)
    requires StartsWith(w, p) && NoKeywordStart(p)
    ensures KeywordOf(w) == OtherWord
  {
    assert w[0] == p[0] && w[1] == p[1] && w[2] == p[2] by {
      assert w[..|p|] == p;
    }
  }

  /** A text that begins with such a word has a first word that is no keyword. */
  lemma FirstWordIsOther(t: string, p: string)
    requires IsWord(p) && StartsWith(t, p) && NoKeywordStart(p)
    ensures Words(t) != [] && KeywordOf(Words(t)[0]) == OtherWord
  {
    FirstWordExtends(t, p);
    KeywordOther(Words(t)[0], p);
  }

  /** Each prefix test holds exactly when the text has that prefix. */
  lemma PrefixTests(t: string)
    ensures StartsWith(t, "!upload") <==> PrefixOf(t) == UploadPrefix
    ensures StartsWith(t, "!leave") <==> PrefixOf(t) == LeavePrefix
    ensures StartsWith(t, "!chat") <==> PrefixOf(t) == ChatPrefix
  {
    if StartsWith(t, "!leave") {
      Differ(t, "!leave", "!upload", 1);
    }
    if StartsWith(t, "!chat") {
      Differ(t, "!chat", "!upload", 1);
      Differ(t, "!chat", "!leave", 1);
    }
  }

  /** A text that passes a prefix test is no keyword command. */
  lemma PrefixIsOther(t: string)
    requires PrefixOf(t) != NoPrefix
    ensures Words(t) != [] && KeywordOf(Words(t)[0]) == OtherWord
  {
    PrefixTests(t);
    match PrefixOf(t)
    case UploadPrefix => FirstWordIsOther(t, "!upload");
    case LeavePrefix => FirstWordIsOther(t, "!leave");
    case ChatPrefix => FirstWordIsOther(t, "!chat");
  }

  /** `p` does not begin like any prefix test: "!upgrade" and "!upload" part
      at their fourth character. */
  predicate NoPrefixStart(p: string)
  {
    && |p| >= 4
    && (p[0] != '!' || (p[1] !in "lc" && (p[1] != 'u' || p[2] != 'p' || p[3] != 'l')))
  }

  /** A text that begins with a word like neither a keyword nor a prefix test
      passes no test of either kind. */
  lemma StartIsOther(t: string, p: string)
    requires IsWord(p) && StartsWith(t, p) && NoKeywordStart(p) && NoPrefixStart(p)
    ensures Words(t) != [] && KeywordOf(Words(t)[0]) == OtherWord
    ensures PrefixOf(t) == NoPrefix
  {
    FirstWordIsOther(t, p);
    StartNoPrefix(t, p);
  }

  lemma StartNoPrefix(t: string, p: string)
    requires StartsWith(t, p) && NoPrefixStart(p)
    ensures PrefixOf(t) == NoPrefix
  {
    PrefixTests(t);
    var i := if p[0] != '!' then 0 else if p[1] != 'u' then 1 else if p[2] != 'p' then 2 else 3;
    Differ(t, p, "!upload", i);
    Differ(t, p, "!leave", if p[0] != '!' then 0 else 1);
    Differ(t, p, "!chat", if p[0] != '!' then 0 else 1);
  }

  /** The word a text passing an equality test begins with. */
  function LeadWord(lit: Literal, t: string): string
  {
    match lit
    case RestartText => "!restart"
    case _ => t
  }

  /** The words the equality tests compare with (the second form of
      `!restart` only begins with "!restart"). */
  predicate LiteralWord(p: string)
  {
    p == "!sudos" || p == "/sudos" || p == "!restart" || p == "!del" || p == "!upgrade" || p == "!promote"
  }

  /** Printable ASCII other than the space: never a separator. */
  predicate Printable(p: string)
  {
    forall i :: 0 <= i < |p| ==> '!' <= p[i] <= '~'
  }

  lemma PrintableWord(p: string)
    requires p != [] && Printable(p)
    ensures IsWord(p)
  {
  }

  lemma LiteralWordFacts(p: string)
    requires LiteralWord(p)
    ensures IsWord(p) && NoKeywordStart(p) && NoPrefixStart(p)
  {
    PrintableWord(p);
  }

  lemma LiteralLead(t: string, botUsername: string)
    requires LiteralOf(t, botUsername) != NoLiteral
    ensures var p := LeadWord(LiteralOf(t, botUsername), t);
            IsWord(p) && StartsWith(t, p) && NoKeywordStart(p) && NoPrefixStart(p)
  {
    var p := LeadWord(LiteralOf(t, botUsername), t);
    if LiteralOf(t, botUsername) == RestartText {
      assert StartsWith(t, "!restart");
    } else {
      assert t[..|t|] == t;
    }
    LiteralWordFacts(p);
  }

  /** A text that passes an equality test is no keyword command and passes no
      prefix test. */
  lemma LiteralIsOther(t: string, botUsername: string)
    requires LiteralOf(t, botUsername) != NoLiteral
    ensures Words(t) != [] && KeywordOf(Words(t)[0]) == OtherWord
    ensures PrefixOf(t) == NoPrefix
  {
    LiteralLead(t, botUsername);
    StartIsOther(t, LeadWord(LiteralOf(t, botUsername), t));
  }

  // The branches, stated on the text.

  /** The help text is sent exactly for the two literal texts. */
  lemma HelpRoute(t: string, chatId: int, botUsername: string)
    ensures Route(t, chatId, botUsername) == Run(Help) <==> t == "!sudos" || t == "/sudos"
  {
    SelectHelp(t, Words(t), LiteralOf(t, botUsername), PrefixOf(t), chatId);
  }

  /** A text whose first word is a keyword is none of the literal texts and
      starts with none of the tested prefixes. */
  lemma KeywordExcludes(t: string, botUsername: string)
    ensures Words(t) != [] && KeywordOf(Words(t)[0]) != OtherWord
            ==> LiteralOf(t, botUsername) == NoLiteral && PrefixOf(t) == NoPrefix
  {
    var ws, lit, pre := Words(t), LiteralOf(t, botUsername), PrefixOf(t);
    if ws != [] && KeywordOf(ws[0]) != OtherWord {
      if lit != NoLiteral {
        LiteralIsOther(t, botUsername);
      }
      if pre != NoPrefix {
        PrefixIsOther(t);
      }
    }
  }

  /** `!eval` is chosen exactly when the first word is `!eval`, and the
      source is `text[6:]`. */
  lemma EvalRoute(t: string, chatId: int, botUsername: string, source: string)
    ensures Route(t, chatId, botUsername) == Run(Eval(source))
            <==> Words(t) != [] && Words(t)[0] == "!eval" && source == Drop(t, 6)
  {
    var ws := Words(t);
    KeywordExcludes(t, botUsername);
    if ws != [] && ws[0] == "!eval" {
      assert KeywordOf(ws[0]) != OtherWord;
    }
    SelectEval(t, ws, LiteralOf(t, botUsername), PrefixOf(t), chatId, source);
  }

  /** `!cmd` is chosen exactly when the first word is `!cmd`, and the command
      line is `text[5:]`. */
  lemma ShellRoute(t: string, chatId: int, botUsername: string, command: string)
    ensures Route(t, chatId, botUsername) == Run(Shell(command))
            <==> Words(t) != [] && Words(t)[0] == "!cmd" && command == Drop(t, 5)
  {
    var ws := Words(t);
    KeywordExcludes(t, botUsername);
    if ws != [] && ws[0] == "!cmd" {
      assert KeywordOf(ws[0]) != OtherWord;
    }
    SelectShell(t, ws, LiteralOf(t, botUsername), PrefixOf(t), chatId, command);
  }

  /** `!doc` is chosen exactly when the first word is `!doc`, and the path is
      `text[5:]`. */
  lemma SendFileRoute(t: string, chatId: int, botUsername: string, path: string)
    ensures Route(t, chatId, botUsername) == Run(SendFile(path))
            <==> Words(t) != [] && Words(t)[0] == "!doc" && path == Drop(t, 5)
  {
    var ws := Words(t);
    KeywordExcludes(t, botUsername);
    if ws != [] && ws[0] == "!doc" {
      assert KeywordOf(ws[0]) != OtherWord;
    }
    SelectSendFile(t, ws, LiteralOf(t, botUsername), PrefixOf(t), chatId, path);
  }

  /** `!exec` is chosen exactly when the first word is `!exec`, and the
      source is `text[6:]`. */
  lemma ExecRoute(t: string, chatId: int, botUsername: string, source: string)
    ensures Route(t, chatId, botUsername) == Run(Exec(source))
            <==> Words(t) != [] && Words(t)[0] == "!exec" && source == Drop(t, 6)
  {
    var ws := Words(t);
    KeywordExcludes(t, botUsername);
    if ws != [] && ws[0] == "!exec" {
      assert KeywordOf(ws[0]) != OtherWord;
    }
    SelectExec(t, ws, LiteralOf(t, botUsername), PrefixOf(t), chatId, source);
  }

  /** `!upload` matches by prefix, wherever the first word ends, and the
      folder is `text[8:]`. */
  lemma UploadRoute(t: string, chatId: int, botUsername: string, p: string)
    ensures Route(t, chatId, botUsername) == Run(Upload(p))
            <==> StartsWith(t, "!upload") && p == Drop(t, 8)
  {
    var ws, lit, pre := Words(t), LiteralOf(t, botUsername), PrefixOf(t);
    PrefixTests(t);
    if pre == UploadPrefix {
      PrefixIsOther(t);
      if lit != NoLiteral {
        LiteralIsOther(t, botUsername);
      }
    }
    SelectUpload(t, ws, lit, pre, chatId, p);
  }

  /** Each equality test other than the help test runs its command exactly
      when it holds. */
  lemma LiteralRoute(t: string, chatId: int, botUsername: string, l: Literal)
    requires l != NoLiteral && l != HelpText
    ensures Route(t, chatId, botUsername) == Run(LiteralCommand(l)) <==> LiteralOf(t, botUsername) == l
  {
    var ws, lit, pre := Words(t), LiteralOf(t, botUsername), PrefixOf(t);
    if lit == l {
      LiteralIsOther(t, botUsername);
    }
    SelectLiteral(t, ws, lit, pre, chatId, l);
  }

  /** The texts each equality test accepts. */
  lemma LiteralTexts(t: string, botUsername: string)
    ensures LiteralOf(t, botUsername) == RestartText <==> t == "!restart" || t == "!restart @" + botUsername
    ensures LiteralOf(t, botUsername) == DelText <==> t == "!del"
    ensures LiteralOf(t, botUsername) == UpgradeText <==> t == "!upgrade"
    ensures LiteralOf(t, botUsername) == PromoteText <==> t == "!promote"
  {
  }

  /** `!restart` runs for the bare command and for the command addressed to
      this bot, and for no other text. */
  lemma RestartRoute(t: string, chatId: int, botUsername: string)
    ensures Route(t, chatId, botUsername) == Run(Restart)
            <==> t == "!restart" || t == "!restart @" + botUsername
  {
    LiteralRoute(t, chatId, botUsername, RestartText);
    LiteralTexts(t, botUsername);
  }

  /** `!del` runs for that exact text only. */
  lemma DeleteRoute(t: string, chatId: int, botUsername: string)
    ensures Route(t, chatId, botUsername) == Run(Delete) <==> t == "!del"
  {
    LiteralRoute(t, chatId, botUsername, DelText);
    LiteralTexts(t, botUsername);
  }

  /** `!upgrade` runs for that exact text only. */
  lemma UpgradeRoute(t: string, chatId: int, botUsername: string)
    ensures Route(t, chatId, botUsername) == Run(Upgrade) <==> t == "!upgrade"
  {
    LiteralRoute(t, chatId, botUsername, UpgradeText);
    LiteralTexts(t, botUsername);
  }

  /** `!promote` runs for that exact text only. */
  lemma PromoteRoute(t: string, chatId: int, botUsername: string)
    ensures Route(t, chatId, botUsername) == Run(Promote) <==> t == "!promote"
  {
    LiteralRoute(t, chatId, botUsername, PromoteText);
    LiteralTexts(t, botUsername);
  }

  /** `!plist` is chosen exactly when the first word is `!plist`; it reports
      the tracebacks when the text after the first space is exactly "errors". */
  lemma PluginListRoute(t: string, chatId: int, botUsername: string, errors: bool)
    ensures Route(t, chatId, botUsername) == Run(PluginList(errors))
            <==> Words(t) != [] && Words(t)[0] == "!plist" && errors == (AfterFirst(t, ' ') == "errors")
  {
    var ws := Words(t);
    KeywordExcludes(t, botUsername);
    if ws != [] && ws[0] == "!plist" {
      assert KeywordOf(ws[0]) != OtherWord;
    }
    SelectPluginList(t, ws, LiteralOf(t, botUsername), PrefixOf(t), chatId, errors);
  }

  /** `!leave` leaves the chat its second word names when the text has
      exactly two words, and the current chat otherwise. */
  lemma LeaveTarget(t: string, chatId: int, botUsername: string)
    requires StartsWith(t, "!leave")
    ensures Route(t, chatId, botUsername)
            == Run(Leave(if |Words(t)| == 2 then NamedChat(Words(t)[1]) else ThisChat(chatId)))
  {
    PrefixTests(t);
    PrefixIsOther(t);
    if LiteralOf(t, botUsername) != NoLiteral {
      LiteralIsOther(t, botUsername);
    }
    SelectLate(t, Words(t), LiteralOf(t, botUsername), PrefixOf(t), chatId);
  }

  /** `!chat` asks about the current chat when the text has no space, and
      otherwise about the chat its second word names. */
  lemma ChatTarget(t: string, chatId: int, botUsername: string)
    requires StartsWith(t, "!chat")
    ensures ' ' !in t ==> Route(t, chatId, botUsername) == Run(ChatInfo(ThisChat(chatId)))
    ensures ' ' in t && |Words(t)| >= 2 ==> Route(t, chatId, botUsername) == Run(ChatInfo(NamedChat(Words(t)[1])))
  {
    PrefixTests(t);
    PrefixIsOther(t);
    if LiteralOf(t, botUsername) != NoLiteral {
      LiteralIsOther(t, botUsername);
    }
    SelectLate(t, Words(t), LiteralOf(t, botUsername), PrefixOf(t), chatId);
  }

  /** Only a text starting with "!leave" leaves a chat, and only a text
      starting with "!chat" asks about one. */
  lemma LateRouteOnly(t: string, chatId: int, botUsername: string)
    ensures Route(t, chatId, botUsername).Run? && Route(t, chatId, botUsername).command.Leave?
            ==> StartsWith(t, "!leave")
    ensures Route(t, chatId, botUsername).Run? && Route(t, chatId, botUsername).command.ChatInfo?
            ==> StartsWith(t, "!chat")
  {
    PrefixTests(t);
    SelectLateOnly(t, Words(t), LiteralOf(t, botUsername), PrefixOf(t), chatId);
  }

  /** A text is ignored exactly when it has a first word that is no keyword,
      and it passes no equality and no `startswith` test. */
  lemma IgnoredRoute(t: string, chatId: int, botUsername: string)
    ensures Route(t, chatId, botUsername) == Ignored
            <==> && Words(t) != [] && KeywordOf(Words(t)[0]) == OtherWord
                 && LiteralOf(t, botUsername) == NoLiteral && PrefixOf(t) == NoPrefix
  {
    SelectIgnored(t, Words(t), LiteralOf(t, botUsername), PrefixOf(t), chatId);
  }

  /** `!backup` is chosen exactly when the first word is `!backup`, and goes
      to the sender when the lower-cased text mentions "pv" or "privado". */
  lemma BackupRoute(t: string, chatId: int, botUsername: string, toSender: bool)
    ensures Route(t, chatId, botUsername) == Run(Backup(toSender))
            <==> Words(t) != [] && Words(t)[0] == "!backup"
                 && toSender == (Contains(Lower(t), "pv") || Contains(Lower(t), "privado"))
  {
    var ws := Words(t);
    KeywordExcludes(t, botUsername);
    if ws != [] && ws[0] == "!backup" {
      assert KeywordOf(ws[0]) != OtherWord;
    }
    SelectBackup(t, ws, LiteralOf(t, botUsername), PrefixOf(t), chatId, toSender);
  }

  /** An IndexError escapes exactly when the text has no word at all
      (`split()[0]`), or when a `!chat` text holds a space but no second word
      (`split()[1]`). */
  lemma CrashRoute(t: string, chatId: int, botUsername: string)
    ensures Route(t, chatId, botUsername) == Crashed
            <==> Blank(t) || (StartsWith(t, "!chat") && ' ' in t && |Words(t)| < 2)
  {
    var ws, lit, pre := Words(t), LiteralOf(t, botUsername), PrefixOf(t);
    WordsEmptyIffBlank(t);
    PrefixTests(t);
    if lit != NoLiteral {
      LiteralIsOther(t, botUsername);
    }
    if pre == ChatPrefix {
      PrefixIsOther(t);
    }
    if lit == HelpText {
      SelectHelp(t, ws, lit, pre, chatId);
    } else {
      SelectCrashed(t, ws, lit, pre, chatId);
    }
  }

  /** "!chat" followed by separators only, at least one of them a space (say
      "!chat "), has a space but no second word, so `split()[1]` raises. */
  lemma ChatWithoutTargetCrashes(rest: string, chatId: int, botUsername: string)
    requires Blank(rest) && ' ' in rest
    ensures Route("!chat" + rest, chatId, botUsername) == Crashed
  {
    ChatThenBlank(rest);
    StartsWithConcat("!chat", rest);
    InConcat(' ', "!chat", rest);
    CrashRoute("!chat" + rest, chatId, botUsername);
  }

  lemma ChatThenBlank(rest: string)
    requires Blank(rest)
    ensures Words("!chat" + rest) == ["!chat"]
  {
    PrintableWord("!chat");
    WordThenBlank("!chat", rest);
  }

  // ---------------------------------------------------------------------------
  // !eval

  /** `getattrs(msg)`: the keyword bindings `!eval` hands to `meval`, the
      message under "m", the client under "c" and the repository under "git". */
  function EvalBindings(msg: Value, client: Value, repo: Value): (kw: Bindings)
    ensures kw.Valid() && kw.order == ["m", "c", "git"]
    ensures kw.values["m"] == msg && kw.values["c"] == client && kw.values["git"] == repo
  {
    Bindings(["m", "c", "git"], map["m" := msg, "c" := client, "git" := repo])
  }

  /** An `!eval` snippet gets `m`, `c` and `git`, in that order, as its
      keyword-only parameters, then the hidden binding, whose name is never
      one of the three. */
  lemma EvalParameters(g: Globals, msg: Value, client: Value, repo: Value, body: seq<Stmt>)
    requires "__name__" in g && "__package__" in g && body != []
    ensures UnitFor(g, EvalBindings(msg, client, repo), body).Ok?
    ensures var ps := UnitFor(g, EvalBindings(msg, client, repo), body).value.params.kwOnly;
            |ps| == 4 && ps[0].name == "m" && ps[1].name == "c" && ps[2].name == "git"
            && ps[3].name == HiddenName(g)
  {
    var kw := EvalBindings(msg, client, repo);
    assert |HiddenName(g)| >= |Seed|;
    assert HiddenName(g) !in kw.order;
    UnitParameters(g, kw, body);
  }

  /** The `!eval` handler: run the payload through `meval` with those
      bindings, and reply with `str` of the result or with the traceback of
      the `Exception` raised; a `BaseException` outside `Exception` gets no
      reply. */
  method HandleEval(ns: Namespace, source: string, msg: Value, client: Value, repo: Value, rt: Runtime,
                    show: Value -> string, traceback: PyError -> string) returns (reply: Option<string>)
    modifies ns
    ensures var (r, after) := MevalSpec(old(ns.globals), source, EvalBindings(msg, client, repo), rt);
            && ns.globals == after
            && (reply.None? <==> r.Err? && r.error.Escaped?)
            && (r.Ok? ==> reply == Some(show(r.value)))
            && (r.Err? && !r.error.Escaped? ==> reply == Some(traceback(r.error)))
  {
    var r := ns.Meval(source, EvalBindings(msg, client, repo), rt);
    if r.Ok? {
      reply := Some(show(r.value));
    } else if r.error.Escaped? {
      // `except Exception` does not catch it: it leaves the handler unanswered
      reply := None;
    } else {
      reply := Some(traceback(r.error));
    }
  }

  // ---------------------------------------------------------------------------
  // !upload, !leave and !backup

  /** The file is stored under its own name, inside the folder the command
      names when there is one. */
  function UploadPath(folder: string, fileName: string): (path: string)
    ensures folder == [] ==> path == fileName
    ensures folder != [] ==> StartsWith(path, folder + "/") && path[|folder| + 1..] == fileName
  {
    if |folder| >= 1 then folder + "/" + fileName else fileName
  }

  /** The backup goes to the operator's private chat when the lower-cased
      text mentions "pv" or "privado" (`msg['chat']['id'] = msg['from']['id']`),
      and to the current chat otherwise. */
  function BackupChat(msg: Message): (chat: int)
    requires msg.text.Some?
    ensures chat == msg.senderId || chat == msg.chatId
    ensures chat == msg.senderId && msg.senderId != msg.chatId
            ==> Contains(Lower(msg.text.value), "pv") || Contains(Lower(msg.text.value), "privado")
    ensures Contains(Lower(msg.text.value), "pv") || Contains(Lower(msg.text.value), "privado") ==> chat == msg.senderId
    ensures !Contains(Lower(msg.text.value), "pv") && !Contains(Lower(msg.text.value), "privado") ==> chat == msg.chatId
  {
    var lowered := Lower(msg.text.value);
    if Contains(lowered, "pv") || Contains(lowered, "privado") then msg.senderId else msg.chatId
  }

  /** The largest archive that is sent rather than only named: 50 MiB. */
  const BackupLimit := 52428800

  /** `not os.path.getsize(fname) > 52428800` */
  function SendsArchive(size: nat): (sends: bool)
    ensures sends <==> size <= 50 * 1024 * 1024
  {
    !(size > BackupLimit)
  }

  // ---------------------------------------------------------------------------
  // !exec

  const ExecHeader := "async def __ex(c, m): "

  /** `'\n ' + l` for every line `l` */
  function Indent(lines: seq<string>): seq<string>
  {
    if lines == [] then [] else ["\n " + lines[0]] + Indent(lines[1..])
  }

  /** The source `exec` compiles: `'async def __ex(c, m): ' + ' '.join('\n ' + l
      for l in text.split('\n'))`. */
  function ExecSource(payload: string): (src: string)
    ensures src == ExecHeader + "\n " + Spread(payload)
  {
    JoinIndented(Split(payload, '\n'));
    JoinLines(payload);
    ExecHeader + Join(" ", Indent(Split(payload, '\n')))
  }

  /** Every newline of the payload, with a space on each side. */
  function Spread(s: string): (r: string)
  {
    if s == [] then [] else (if s[0] == '\n' then " \n " else [s[0]]) + Spread(s[1..])
  }

  /** Joining the indented lines with a space is joining the lines with
      " \n ", after one leading "\n ". */
  lemma {:induction false} JoinIndented(lines: seq<string>)
    requires lines != []
    ensures Join(" ", Indent(lines)) == "\n " + Join(" \n ", lines)
  {
    if |lines| > 1 {
      var more := lines[1..];
      JoinIndented(more);
      assert Indent(lines) == ["\n " + lines[0]] + Indent(more);
      assert Indent(more) != [];
      assert (["\n " + lines[0]] + Indent(more))[1..] == Indent(more);
    }
  }

  /** Joining the newline-separated pieces with " \n " widens every newline. */
  lemma {:induction false} JoinLines(s: string)
    ensures Join(" \n ", Split(s, '\n')) == Spread(s)
  {
    if s != [] {
      var rest := Split(s[1..], '\n');
      JoinLines(s[1..]);
      if s[0] == '\n' {
        assert ([[]] + rest)[1..] == rest;
      } else {
        JoinHead([s[0]], rest, " \n ");
      }
    }
  }

  /** What `redirect_stdout` captured, or the traceback of whatever raised
      while compiling or running the block. */
  datatype ExecRun = Printed(output: string) | Failed(trace: string)

  const Silent := "C\U{f3}digo sem retornos."

  /** The reply to `!exec`: the captured text, the placeholder when nothing
      was printed, or the traceback when anything raised (partial output is
      dropped). The reply is empty only if a traceback is. */
  function ExecReply(run: ExecRun): (reply: string)
    ensures run.Failed? ==> reply == run.trace
    ensures run.Printed? && run.output != [] ==> reply == run.output
    ensures run.Printed? && run.output == [] ==> reply == Silent
    ensures reply == [] ==> run.Failed?
  {
    match run
    case Failed(trace) => trace
    case Printed(output) => if output != [] then output else Silent
  }

  /** How running the compiled block ends, with the module namespace after it. */
  datatype ExecEnd = ExecEnd(run: ExecRun, globals: Globals)

  /** The `!exec` handler: merge `msg` and `text` into the module namespace for
      good, compile and run the block there, and reply. */
  method HandleExec(ns: Namespace, text: string, msg: Value, exec: (string, Globals) -> ExecEnd) returns (reply: string)
    modifies ns
    ensures var merged := old(ns.globals)["msg" := msg]["text" := Str(text)];
            && ns.globals == exec(ExecSource(text), merged).globals
            && reply == ExecReply(exec(ExecSource(text), merged).run)
  {
    ns.MergeLocals(msg, text);
    var end := exec(ExecSource(text), ns.globals);
    ns.globals := end.globals;
    reply := ExecReply(end.run);
  }

  // ---------------------------------------------------------------------------
  // !cmd

  /** A letter of the pattern under `re.IGNORECASE`: a lower-case ASCII letter
      matches itself and its upper case, and 's' also matches U+017F. */
  predicate LetterMatches(c: char, p: char)
  {
    c == p || ('a' <= p <= 'z' && c as int == p as int - 32) || (p == 's' && c == '\U{17f}')
  }

  predicate StartsWithCI(s: string, p: string)
  {
    |p| <= |s| && forall i :: 0 <= i < |p| ==> LetterMatches(s[i], p[i])
  }

  /** `.*p` at the start of `s`, backtracking over the `.*`, whose `.` takes
      any character but a newline. */
  predicate DotStarThen(s: string, p: string)
    decreases |s|
  {
    StartsWithCI(s, p) || (s != [] && s[0] != '\n' && DotStarThen(s[1..], p))
  }

  /** `re.match('(?i).*poweroff|halt|shutdown|reboot', command)`: the
      alternation binds loosest, so only "poweroff" may come after other text. */
  predicate Forbidden(command: string)
    ensures Forbidden(command)
            <==> || (exists i :: OnFirstLineAt(command, "poweroff", i))
                 || StartsWithCI(command, "halt")
                 || StartsWithCI(command, "shutdown")
                 || StartsWithCI(command, "reboot")
  {
    DotStarThenAt(command, "poweroff");
    || DotStarThen(command, "poweroff")
    || StartsWithCI(command, "halt")
    || StartsWithCI(command, "shutdown")
    || StartsWithCI(command, "reboot")
  }

  /** `p` starts at position `i` with no newline before it. */
  predicate OnFirstLineAt(s: string, p: string, i: int)
  {
    0 <= i <= |s| && (forall j :: 0 <= j < i ==> s[j] != '\n') && StartsWithCI(s[i..], p)
  }

  /** The `.*p` scan holds exactly when `p` occurs, case-insensitively, before
      the first newline. */
  lemma {:induction false} DotStarThenAt(s: string, p: string)
    ensures DotStarThen(s, p) <==> exists i :: OnFirstLineAt(s, p, i)
    decreases |s|
  {
    if StartsWithCI(s, p) {
      assert s[0..] == s;
      assert OnFirstLineAt(s, p, 0);
    }
    if s != [] {
      DotStarThenAt(s[1..], p);
      if s[0] != '\n' && DotStarThen(s[1..], p) {
        var i :| OnFirstLineAt(s[1..], p, i);
        assert s[1..][i..] == s[i + 1..];
        assert OnFirstLineAt(s, p, i + 1);
      }
      if i :| OnFirstLineAt(s, p, i) {
        if i > 0 {
          assert s[0] != '\n';
          assert s[1..][i - 1..] == s[i..];
          assert OnFirstLineAt(s[1..], p, i - 1);
        }
      }
    } else {
      if i :| OnFirstLineAt(s, p, i) {
        assert i == 0;
      }
    }
  }

  /** A text in which no character matches the first letter of `p` holds no
      `.*p` match. */
  lemma {:induction false} NoFirstLetter(s: string, p: string)
    requires p != [] && 'a' <= p[0] <= 'z' && p[0] != 's'
    requires p[0] !in s && (p[0] as int - 32) as char !in s
    ensures !DotStarThen(s, p)
    decreases |s|
  {
    if s != [] {
      assert s[0] in s;
      assert forall c :: c in s[1..] ==> c in s;
      NoFirstLetter(s[1..], p);
    }
  }

  /** A prefix that fails to match at one position does not match. */
  lemma Mismatch(s: string, p: string, i: nat)
    requires i < |s| && i < |p| && !LetterMatches(s[i], p[i])
    ensures !StartsWithCI(s, p)
  {
  }

  /** A character that cannot start the pattern and is no newline is skipped
      by the `.*` scan. */
  lemma SkipOne(c: char, s: string, p: string)
    requires p != [] && !LetterMatches(c, p[0]) && c != '\n'
    ensures DotStarThen([c] + s, p) == DotStarThen(s, p)
  {
    assert ([c] + s)[1..] == s;
    Mismatch([c] + s, p, 0);
  }

  /** A command run through `sudo` is refused only when "poweroff" occurs on
      its first line: the anchored alternatives "halt", "shutdown" and
      "reboot" can never match after "sudo ". */
  lemma SudoCommand(rest: string)
    ensures Forbidden("sudo " + rest) <==> DotStarThen(rest, "poweroff")
  {
    var s := "sudo " + rest;
    Mismatch(s, "halt", 0);
    Mismatch(s, "shutdown", 1);
    Mismatch(s, "reboot", 0);
    assert s == ['s'] + (['u'] + (['d'] + (['o'] + ([' '] + rest))));
    SkipOne(' ', rest, "poweroff");
    SkipOne('o', [' '] + rest, "poweroff");
    SkipOne('d', ['o'] + ([' '] + rest), "poweroff");
    SkipOne('u', ['d'] + (['o'] + ([' '] + rest)), "poweroff");
    SkipOne('s', ['u'] + (['d'] + (['o'] + ([' '] + rest))), "poweroff");
  }

  /** "sudo reboot", and any `sudo` command without a 'p' in it, is run. */
  lemma SudoWithoutPIsRun(rest: string)
    requires 'p' !in rest && 'P' !in rest
    ensures !Forbidden("sudo " + rest)
  {
    SudoCommand(rest);
    NoFirstLetter(rest, "poweroff");
  }

  const OutputTitle := "<b>Output:</b>\n"
  const ErrorsTitle := "\n\n<b>Errors:</b>\n"

  /** A titled, escaped `<code>` block, present only for non-empty text. */
  function Section(title: string, text: string): string
  {
    if text == [] then [] else title + "<code>" + Escape(text) + "</code>"
  }

  /** What `bytes.decode()` makes of a pipe: its UTF-8 text, or bytes that
      are no UTF-8 (so not empty), on which it raises `UnicodeDecodeError`. */
  datatype Stream = Text(text: string) | Undecodable

  /** The reply to `!cmd`. A forbidden command is refused and never run;
      otherwise `shell` runs it and gives its stdout and stderr. When both
      decode, the reply is the Output section then the Errors section, or a
      fixed text when both are empty; when either does not, the error leaves
      the handler and there is no reply. */
  function CmdReply(command: string, shell: string -> (Stream, Stream)): (reply: Option<string>)
    ensures reply.None? <==> !Forbidden(command) && (shell(command).0.Undecodable? || shell(command).1.Undecodable?)
  {
    if Forbidden(command) then Some("Comando proibido.")
    else
      match shell(command)
      case (Text(out), Text(err)) =>
        var res := Section(OutputTitle, out) + Section(ErrorsTitle, err);
        Some(if res == [] then "Comando executado." else res)
      case _ => None
  }

  /** What a reader of the reply learns. */
  datatype CmdView = Refused | Executed | Report(stdout: string, stderr: string)

  /** The text up to the first '<'. */
  function UntilTag(s: string): (r: string)
    ensures StartsWith(s, r)
  {
    if s == [] || s[0] == '<' then [] else [s[0]] + UntilTag(s[1..])
  }

  const OutputOpen := OutputTitle + "<code>"
  const ErrorsOpen := ErrorsTitle + "<code>"

  /** Reads one section from the front of `s`: when `s` opens with `open`, the
      unescaped text up to the next tag and what follows the closing tag;
      otherwise no text and all of `s`. */
  function ReadSection(s: string, open: string): (string, string)
  {
    if StartsWith(s, open) then ReadBody(s[|open|..]) else ([], s)
  }

  /** The unescaped text up to the next tag, and what follows the closing tag. */
  function ReadBody(body: string): (string, string)
  {
    var e := UntilTag(body);
    (Unescape(e), Drop(body, |e| + |"</code>"|))
  }

  /** Reads a `!cmd` reply back: the fixed texts, or the text of each section. */
  function ReadCmdReply(reply: string): CmdView
  {
    if reply == "Comando proibido." then Refused
    else if reply == "Comando executado." then Executed
    else
      var (out, rest) := ReadSection(reply, OutputOpen);
      Report(out, ReadSection(rest, ErrorsOpen).0)
  }

  /** An opening, a tag-free text, the closing tag and a tail: the section
      reader takes the text and leaves the tail. */
  lemma ReadSectionAt(open: string, e: string, tail: string)
    requires forall i :: 0 <= i < |e| ==> e[i] != '<'
    ensures ReadSection(open + (e + ("</code>" + tail)), open) == (Unescape(e), tail)
  {
    var body := e + ("</code>" + tail);
    var s := open + body;
    assert s[..|open|] == open && s[|open|..] == body;
    ReadBodyAt(e, tail);
  }

  lemma ReadBodyAt(e: string, tail: string)
    requires forall i :: 0 <= i < |e| ==> e[i] != '<'
    ensures ReadBody(e + ("</code>" + tail)) == (Unescape(e), tail)
  {
    var body := e + ("</code>" + tail);
    UntilTagSuffix(e, "</code>" + tail);
    assert body[|e| + |"</code>"|..] == tail;
  }

  /** A section written for non-empty text reads back as that text, and reading
      stops right after it. */
  lemma ReadWrittenSection(title: string, text: string, tail: string)
    requires text != []
    ensures ReadSection(Section(title, text) + tail, title + "<code>") == (text, tail)
  {
    assert Section(title, text) + tail == (title + "<code>") + (Escape(text) + ("</code>" + tail));
    ReadSectionAt(title + "<code>", Escape(text), tail);
    UnescapeEscape(text);
  }

  /** The reply to `!cmd`, when there is one, loses nothing: it says whether
      the command was refused, and otherwise gives back exactly the command's
      stdout and stderr, with the fixed text standing for "both empty". */
  lemma CmdReplyReadBack(command: string, shell: string -> (Stream, Stream))
    ensures CmdReply(command, shell).Some?
            ==> ReadCmdReply(CmdReply(command, shell).value)
                == if Forbidden(command) then Refused
                   else if shell(command) == (Text([]), Text([])) then Executed
                   else Report(shell(command).0.text, shell(command).1.text)
  {
    if !Forbidden(command) && shell(command).0.Text? && shell(command).1.Text? {
      var out, err := shell(command).0.text, shell(command).1.text;
      var reply := CmdReply(command, shell).value;
      if out != [] || err != [] {
        var es := Section(ErrorsTitle, err);
        assert reply == Section(OutputTitle, out) + es;
        if out != [] {
          ReadWrittenSection(OutputTitle, out, es);
          assert reply[0] == '<';
        } else {
          assert reply == es && reply[0] == '\n';
          assert !StartsWith(reply, OutputOpen);
        }
        assert ReadSection(reply, OutputOpen) == (out, es);
        if err != [] {
          ReadWrittenSection(ErrorsTitle, err, []);
          assert es + [] == es;
        } else {
          assert ReadSection([], ErrorsOpen) == ([], []);
        }
      }
    }
  }

  /** A tag-free text followed by a tag is read up to the tag and no further. */
  lemma {:induction false} UntilTagSuffix(e: string, tail: string)
    requires forall i :: 0 <= i < |e| ==> e[i] != '<'
    requires tail == [] || tail[0] == '<'
    ensures UntilTag(e + tail) == e
  {
    if e == [] {
      assert e + tail == tail;
    } else {
      assert (e + tail)[1..] == e[1..] + tail;
      UntilTagSuffix(e[1..], tail);
    }
  }

  // ---------------------------------------------------------------------------
  // !plist

  /** The enabled plugins and, in load order, each failed plugin with its
      traceback. */
  datatype PluginState = PluginState(active: seq<string>, failed: seq<(string, string)>)

  function FailedNames(failed: seq<(string, string)>): (names: seq<string>)
    ensures |names| == |failed|
    ensures forall i :: 0 <= i < |failed| ==> names[i] == failed[i].0
  {
    seq(|failed|, i requires 0 <= i < |failed| => failed[i].0)
  }

  function ActiveHeader(count: nat): string
  {
    "<b>Active plugins (" + Decimal(count) + "):</b>\n"
  }

  function InactiveHeader(count: nat): string
  {
    "\n\n<b>Inactive plugins (" + Decimal(count) + "):</b>\n"
  }

  const InactiveHint := "\n\nTo see the traceback of these plugins, just type <code>!plist errors</code>"

  /** `!plist`: the active plugins, counted and sorted, then the inactive ones
      in the same form when there are any. */
  function PluginReport(st: PluginState): (r: string)
    ensures StartsWith(r, ActiveHeader(|st.active|) + Join("; ", Sort(st.active)))
    ensures r == ActiveHeader(|st.active|) + Join("; ", Sort(st.active)) <==> st.failed == []
  {
    var head := ActiveHeader(|st.active|) + Join("; ", Sort(st.active));
    var tail := if st.failed == [] then [] else InactiveHeader(|st.failed|) + Join("; ", Sort(FailedNames(st.failed))) + InactiveHint;
    StartsWithConcat(head, tail);
    head + tail
  }

  /** The report's head gives the number of active plugins, and their names
      in sorted order, each as often as it is active. */
  lemma PluginReportActive(st: PluginState)
    ensures exists names: seq<string> ::
      && StartsWith(PluginReport(st), ActiveHeader(|st.active|) + Join("; ", names))
      && Ordered(names) && multiset(names) == multiset(st.active)
    ensures ParseDecimal(Decimal(|st.active|)) == |st.active|
  {
    DecimalRoundTrip(|st.active|);
    var names := Sort(st.active);
    assert StartsWith(PluginReport(st), ActiveHeader(|st.active|) + Join("; ", names));
  }

  /** When some plugin failed, the report goes on with the number of failed
      plugins, then their names in sorted order (each failed name as often as
      it failed), then the hint to ask for the tracebacks. */
  lemma PluginReportInactive(st: PluginState)
    requires st.failed != []
    ensures exists names: seq<string> ::
      && PluginReport(st)
         == ActiveHeader(|st.active|) + Join("; ", Sort(st.active))
            + InactiveHeader(|st.failed|) + Join("; ", names) + InactiveHint
      && Ordered(names) && multiset(names) == multiset(FailedNames(st.failed))
    ensures ParseDecimal(Decimal(|st.failed|)) == |st.failed|
  {
    DecimalRoundTrip(|st.failed|);
    var head := ActiveHeader(|st.active|) + Join("; ", Sort(st.active));
    var names := Sort(FailedNames(st.failed));
    var header, listing := InactiveHeader(|st.failed|), Join("; ", names);
    assert PluginReport(st) == head + (header + listing + InactiveHint);
    assert head + (header + listing + InactiveHint) == head + header + listing + InactiveHint;
  }

  const TracebacksTitle := "<b>Tracebacks:</b>\n"
  const NoErrors := "All plugins loaded without any errors."

  /** One failed plugin in `!plist errors`: its name in bold, then its
      traceback escaped for HTML. */
  function ErrorEntry(p: (string, string)): string
  {
    "<b>" + p.0 + ":</b>\n" + Escape(p.1)
  }

  function ErrorEntries(failed: seq<(string, string)>): (es: seq<string>)
    ensures |es| == |failed|
    ensures forall i :: 0 <= i < |failed| ==> es[i] == ErrorEntry(failed[i])
  {
    seq(|failed|, i requires 0 <= i < |failed| => ErrorEntry(failed[i]))
  }

  /** `!plist errors`: every failed plugin's name and escaped traceback, in
      load order, or a fixed text when none failed. */
  function ErrorsReport(failed: seq<(string, string)>): (r: string)
    ensures failed == [] <==> r == NoErrors
  {
    if failed == [] then NoErrors
    else
      var r := TracebacksTitle + Join("\n", ErrorEntries(failed));
      assert r[0] == '<';
      r
  }

  function DropLast(s: string): string
  {
    if s == [] then [] else s[..|s| - 1]
  }

  /** Reads the entries of `!plist errors` back: a bold `name:`, then the
      entry's traceback. */
  function ReadEntries(s: string): seq<(string, string)>
    decreases |s|
  {
    if !StartsWith(s, "<b>") then []
    else
      var head := UntilTag(s[3..]);
      ReadTrace(DropLast(head), Drop(s, 3 + |head| + |"</b>\n"|))
  }

  /** The unescaped text up to the next tag, less the newline that separates
      it from the next entry, and then the entries that follow. */
  function ReadTrace(name: string, rest: string): seq<(string, string)>
    decreases |rest| + 1
  {
    var e := UntilTag(rest);
    if |e| == |rest| then [(name, Unescape(e))]
    else [(name, Unescape(DropLast(e)))] + ReadEntries(rest[|e|..])
  }

  /** Reads a `!plist errors` reply back as the failed plugins and their tracebacks. */
  function ReadErrorsReport(r: string): seq<(string, string)>
  {
    if r == NoErrors then [] else ReadEntries(Drop(r, |TracebacksTitle|))
  }

  /** An entry's bold name reads back as the plugin's name, and reading goes
      on at its escaped traceback. */
  lemma ReadEntryName(p: (string, string), tail: string)
    requires '<' !in p.0
    ensures ReadEntries(ErrorEntry(p) + tail) == ReadTrace(p.0, Escape(p.1) + tail)
  {
    var more := Escape(p.1) + tail;
    var head := p.0 + ":";
    assert ErrorEntry(p) + tail == "<b>" + (head + ("</b>\n" + more));
    ReadEntriesOpen(head, more);
    assert DropLast(head) == p.0;
  }

  /** A bold `name:` whose name has no '<' is read as that name, and reading
      goes on right after the closing tag. */
  lemma ReadEntriesOpen(head: string, more: string)
    requires forall i :: 0 <= i < |head| ==> head[i] != '<'
    ensures ReadEntries("<b>" + (head + ("</b>\n" + more))) == ReadTrace(DropLast(head), more)
  {
    var s := "<b>" + (head + ("</b>\n" + more));
    assert StartsWith(s, "<b>");
    assert s[3..] == head + ("</b>\n" + more);
    UntilTagSuffix(head, "</b>\n" + more);
    assert Drop(s, 3 + |head| + 5) == more;
  }

  /** An escaped traceback at the end of the reply reads back as the
      traceback. */
  lemma ReadLastTrace(name: string, trace: string)
    ensures ReadTrace(name, Escape(trace)) == [(name, trace)]
  {
    var esc := Escape(trace);
    UnescapeEscape(trace);
    UntilTagSuffix(esc, []);
    assert esc + [] == esc;
  }

  /** An escaped traceback followed by a newline and a tag reads back as the
      traceback, and reading goes on after the newline. */
  lemma ReadTraceThen(name: string, trace: string, more: string)
    requires |more| > 0 && more[0] == '<'
    ensures ReadTrace(name, Escape(trace) + ("\n" + more)) == [(name, trace)] + ReadEntries(more)
  {
    var esc := Escape(trace);
    var rest := Escape(trace) + ("\n" + more);
    UnescapeEscape(trace);
    assert rest == (esc + "\n") + more;
    UntilTagSuffix(esc + "\n", more);
    assert DropLast(esc + "\n") == esc;
    assert rest[|esc| + 1..] == more;
  }

  /** The joined entries start with the first entry's opening tag. */
  lemma JoinedEntriesOpen(failed: seq<(string, string)>)
    requires failed != []
    ensures |Join("\n", ErrorEntries(failed))| > 0 && Join("\n", ErrorEntries(failed))[0] == '<'
  {
    var es := ErrorEntries(failed);
    var first := ErrorEntry(failed[0]);
    assert first[0] == '<';
    if |es| > 1 {
      assert Join("\n", es) == first + "\n" + Join("\n", es[1..]);
    }
  }

  /** The joined entries of plugins whose names have no '<' read back as
      those plugins, in order. */
  lemma {:induction false} ReadJoinedEntries(failed: seq<(string, string)>)
    requires failed != []
    requires forall i :: 0 <= i < |failed| ==> '<' !in failed[i].0
    ensures ReadEntries(Join("\n", ErrorEntries(failed))) == failed
  {
    var es := ErrorEntries(failed);
    var first := ErrorEntry(failed[0]);
    if |failed| == 1 {
      assert Join("\n", es) == first by {
        assert es == [first];
      }
      ReadOneEntry(failed[0]);
      assert [failed[0]] == failed;
    } else {
      var more := Join("\n", ErrorEntries(failed[1..]));
      assert Join("\n", es) == first + ("\n" + more) by {
        assert es[1..] == ErrorEntries(failed[1..]);
      }
      JoinedEntriesOpen(failed[1..]);
      ReadEntryThenMore(failed[0], more);
      ReadJoinedEntries(failed[1..]);
      assert [failed[0]] + failed[1..] == failed;
    }
  }

  lemma ReadOneEntry(p: (string, string))
    requires '<' !in p.0
    ensures ReadEntries(ErrorEntry(p)) == [p]
  {
    assert ErrorEntry(p) + [] == ErrorEntry(p);
    ReadEntryName(p, []);
    assert Escape(p.1) + [] == Escape(p.1);
    ReadLastTrace(p.0, p.1);
  }

  lemma ReadEntryThenMore(p: (string, string), more: string)
    requires '<' !in p.0
    requires |more| > 0 && more[0] == '<'
    ensures ReadEntries(ErrorEntry(p) + ("\n" + more)) == [p] + ReadEntries(more)
  {
    ReadEntryName(p, "\n" + more);
    ReadTraceThen(p.0, p.1, more);
  }

  /** The reply to `!plist errors` loses nothing: it gives back every failed
      plugin with its exact traceback, in load order, as long as no plugin
      name holds a '<'. */
  lemma ErrorsReportReadBack(failed: seq<(string, string)>)
    requires forall i :: 0 <= i < |failed| ==> '<' !in failed[i].0
    ensures ReadErrorsReport(ErrorsReport(failed)) == failed
  {
    if failed != [] {
      var body := Join("\n", ErrorEntries(failed));
      assert ErrorsReport(failed) == TracebacksTitle + body;
      assert Drop(TracebacksTitle + body, |TracebacksTitle|) == body;
      ReadJoinedEntries(failed);
    }
  }
}
