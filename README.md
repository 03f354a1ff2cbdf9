# Sudo commands of EduRobot, modelled in Dafny

EduRobot is a Telegram bot. Its module `plugins/sudos.py` gives the bot's operators (the "sudoers") a set of `!`-commands, and holds `meval`, a small engine that evaluates operator-supplied Python source inside the bot's own process. This project models two things:

- **The `meval` engine** (module `Meval`, file `meval.dfy`). It snapshots the module namespace and picks a hidden binding name that does not collide. It stores `__name__` and `__package__` under that name and rewrites a trailing expression into a `return`. It synthesizes `async def tmp(*, <bindings>)`, calls it, and resolves at most one nested awaitable. Last, it clears the namespace and restores it from the snapshot.
  - The namespace is a class, `Namespace`, whose `Meval` and `MergeLocals` methods update it in place.
  - The hidden-name loop, the binding loop and the parameter loop are methods with loop invariants. Each is proved against a specification function.
  - The interpreter steps that `meval` delegates are fields of a `Runtime` value: parsing, compiling, calling and awaiting.
- **The text-level logic of the `sudos` handler** (module `Sudos`, file `sudos.dfy`). This covers:
  - the guard;
  - the first-match `elif` chain and the fixed payload slices;
  - the bindings `getattrs` passes to `!eval`;
  - the `!exec` wrapper source and reply;
  - the `!cmd` forbidden-command filter and reply;
  - the `!plist` reports;
  - the `!upload` path, the `!leave`/`!chat` targets, the `!backup` redirect and its 50 MiB limit.

The Python string operations these rely on are stated in module `PyText` (file `pytext.dfy`): `split()`, `split(sep)`, `join`, slicing, `startswith`, `in`, `lower()`, `html.escape`, `sorted` and `str(n)`.

The chain is stated over what each test answers, as `Select`. The equality tests go through `LiteralOf`, the `startswith` tests through `PrefixOf`, and the `split()[0] == …` tests through `KeywordOf`. `Route` feeds a text's own answers into `Select`. The lemmas then state, branch by branch and on the text itself, exactly which texts reach each command, which texts crash and which are ignored.

Two outcomes differ from what a reader of `meval` might expect, and the model follows the code:

- An empty or comment-only snippet does not evaluate to "no value". It raises IndexError at `code[-1]` before the namespace is touched (`Meval.EmptyBodyFails`).
- The restore is not unconditional. It sits after the call and the nested await, outside any `try`. When either raises, the changes the call made to the module namespace stay (`Meval.CallFailureSkipsRestore`, `Meval.AwaitFailureSkipsRestore`). Those are changes that reach the module through a module object such as `sys.modules[__name__]`, or through another task running during the awaits. A `global` statement in the snippet writes into the fresh dict that line 80 gives the compiled unit, so such writes never reach the module, whether or not the restore runs.

## Model

| member | source | states |
|---|---|---|
| Meval.Put | plugins/sudos.py:49-52 | `kwargs[k] = v`: the value under `k` is replaced; a new key goes to the end of the insertion order and an existing key keeps its place; distinct keys stay distinct |
| Meval.HiddenName | plugins/sudos.py:45-48 | the hidden binding's name is not a global, is "_globs" with some underscores before it, and every shorter such name is a global |
| Meval.Candidate | plugins/sudos.py:45-48 | the name tried after `k` collisions is `k` underscores before "_globs", so each try is one character longer |
| Meval.TriedSize | plugins/sudos.py:45-48 | the first `k` candidate names are `k` different names |
| Meval.CollisionsBounded | plugins/sudos.py:46-48 | a namespace can make at most as many consecutive candidates collide as it has names, which is why the renaming loop terminates |
| Meval.CollisionCount | plugins/sudos.py:46-48 | the number of collisions is the first `n` whose candidate is not a global, with every earlier candidate a global |
| Meval.PickHiddenName | plugins/sudos.py:44-48 | the `while` loop returns a name that is not a global, and it is the candidate with the fewest underscores with that property |
| Meval.IdentityEntries | plugins/sudos.py:50-52 | the hidden dict holds exactly `__name__` and `__package__` copied from the snapshot; a missing name raises KeyError, `__name__` first |
| Meval.WithHidden | plugins/sudos.py:49-52 | adding the hidden dict succeeds exactly when the snapshot has `__name__` and `__package__`, and otherwise raises KeyError for the first one missing; on success the hidden name holds those two values, every other caller binding keeps its value, the caller's order is a prefix of the new order, and distinct keys stay distinct |
| Meval.AddHidden | plugins/sudos.py:49-52 | the `for` loop that fills `kwargs[hidden]` ends with the caller's bindings plus the hidden dict, or with the KeyError the first missing name raises |
| Meval.RewriteTail | plugins/sudos.py:54-57 | a trailing expression statement becomes a `return` of the same expression; earlier statements and the length are unchanged; a non-expression tail leaves the body alone; an empty body raises IndexError |
| Meval.ArgsOf | plugins/sudos.py:66-69 | one `ast.arg` per binding name, in insertion order, with no annotation |
| Meval.KeywordArgs | plugins/sudos.py:66-69 | the `for` loop over `kwargs.keys()` builds exactly those parameters |
| Meval.BuildUnit | plugins/sudos.py:54-74 | the synthesized `async def tmp` has no positional, variadic or defaulted parameters and one keyword-only parameter per binding in order, with `kw_defaults` all `None`; its body is the globals-update statement and then the rewritten body, shifted by one |
| Meval.Synthesize | plugins/sudos.py:54-74 | the step-by-step rewrite, `insert(0, …)`, parameter loop and wrapper build exactly that unit, or fail with IndexError on an empty body |
| Meval.UnitParameters | plugins/sudos.py:49-74 | the keyword-only parameters are the caller's names in order followed by the hidden name |
| Meval.CallerBindingOverwritten | plugins/sudos.py:46-52 | freshness is checked against the globals only: a caller binding with the hidden name keeps its place and silently loses its value to the hidden dict |
| Meval.PrologueRestoresIdentity | plugins/sudos.py:58-80 | whatever the function's namespace from `exec(comp, {}, locs)` holds (such as the `__builtins__` that `exec` puts there), the prologue `globals().update(**hidden)` sets its `__name__` and `__package__` to the caller's and changes no other name |
| Meval.RestoredOnSuccess | plugins/sudos.py:82-90 | when the call and the one nested await complete, the namespace ends equal to the snapshot: every change the call made to the module namespace (through a module object; the snippet's `global` statements write into the fresh dict of line 80) is undone |
| Meval.CallFailureSkipsRestore | plugins/sudos.py:82-90 | when the call raises, the error propagates and the namespace the call left behind stays |
| Meval.AwaitFailureSkipsRestore | plugins/sudos.py:84-90 | when the call returns an awaitable and awaiting it raises, the error propagates and the namespace the await left behind stays |
| Meval.ParseFailureLeavesGlobals | plugins/sudos.py:54 | a syntax error is reported before any global is touched |
| Meval.EmptyBodyFails | plugins/sudos.py:54-57 | a snippet that parses to no statements fails with IndexError at `code[-1]`, namespace untouched |
| Meval.OneAwaitOnly | plugins/sudos.py:84-85 | only one nested awaitable is resolved: an awaitable produced by that await is returned as the result |
| Meval.MevalSpec | plugins/sudos.py:38-91 | the whole of `meval` on a snapshot: a missing `__name__` or `__package__` raises KeyError (`__name__` first) with the namespace untouched, and whenever a result comes back the namespace ends equal to the snapshot |
| Meval.Namespace.Meval | plugins/sudos.py:38-91 | the method's outcome and the new namespace are those `MevalSpec` gives for the namespace before the call |
| Meval.Namespace.MergeLocals | plugins/sudos.py:234 | `globals().update(locals())` adds `msg` and `text` to the namespace and changes nothing else |
| Sudos.Handle | plugins/sudos.py:99-100 | nothing happens unless the message has a non-empty text, is not a channel post and comes from a sudoer; otherwise the text, the current chat's id and the bot's username decide, through `Route` |
| Sudos.Select | plugins/sudos.py:102-358 | the `elif` chain over its test outcomes: it crashes only with no word or for `!chat` with a space and under two words, and always crashes with no word once the help test fails; it ignores a text only when no equality or prefix test holds; `!eval` and `!exec` take `text[6:]`, `!cmd` and `!doc` `text[5:]`, `!upload` `text[8:]`; a named `!leave`/`!chat` target is the second word and an unnamed one the current chat |
| Sudos.Route | plugins/sudos.py:102-358 | on a text: an IndexError escapes only for a blank text or a `!chat` text with a space and under two words, and a text is ignored only when it passes no equality and no `startswith` test |
| Sudos.SelectHelp | plugins/sudos.py:102 | the first test of the chain: the help text is chosen exactly when the help equality test holds |
| Sudos.SelectEval | plugins/sudos.py:123-124 | `!eval` is chosen exactly when the help test fails and the first word is `!eval`; the payload is `text[6:]` |
| Sudos.SelectPluginList | plugins/sudos.py:139-141 | `!plist` is chosen exactly when the help test fails and the first word is `!plist`; the traceback view is chosen when `split(' ', 1)[-1] == 'errors'` |
| Sudos.SelectUpload | plugins/sudos.py:158-159 | `!upload` is chosen only when the text starts with "!upload", always with payload `text[8:]`, and is chosen whenever the text starts with "!upload", the help test fails and the first word is neither `!eval` nor `!plist` |
| Sudos.SelectLiteral | plugins/sudos.py:176-335 | `!restart`, `!del`, `!upgrade` and `!promote` each run only when their equality test holds, and do run when it holds and no keyword or prefix test does |
| Sudos.SelectShell | plugins/sudos.py:184-185 | `!cmd` is chosen exactly when the help, `!upload` and `!restart` tests fail and the first word is `!cmd`; the payload is `text[5:]` |
| Sudos.SelectSendFile | plugins/sudos.py:201-202 | `!doc` is chosen under the same exclusions when the first word is `!doc`; the payload is `text[5:]` |
| Sudos.SelectExec | plugins/sudos.py:230-231 | `!exec` is chosen when, in addition, the `!del` test fails and the first word is `!exec`; the payload is `text[6:]` |
| Sudos.SelectLate | plugins/sudos.py:270-287 | past the keyword and equality tests, `!leave` and `!chat` pick their target as the source does, and `!chat` with a space but no second word crashes |
| Sudos.SelectLateOnly | plugins/sudos.py:270-283 | `!leave` and `!chat` are chosen only when their own `startswith` test holds |
| Sudos.SelectIgnored | plugins/sudos.py:102-358 | the chain falls through exactly when no equality or prefix test holds and the first word is no keyword |
| Sudos.SelectBackup | plugins/sudos.py:354-358 | `!backup` is chosen exactly when no equality or prefix test holds and the first word is `!backup` |
| Sudos.SelectCrashed | plugins/sudos.py:123-285 | the handler raises IndexError exactly when the text has no word or when `!chat` has a space and no second word |
| Sudos.PrefixTests | plugins/sudos.py:158-283 | each `startswith` test of the chain holds exactly when the text has that prefix; the three prefixes exclude each other |
| Sudos.LiteralIsOther | plugins/sudos.py:102-335 | a text that passes an equality test has no keyword as first word and passes no prefix test, so the chain's order among these tests never matters |
| Sudos.PrefixIsOther | plugins/sudos.py:158-283 | a text that passes a prefix test has no keyword as first word |
| Sudos.HelpRoute | plugins/sudos.py:102 | the help text is sent exactly for "!sudos" and "/sudos" |
| Sudos.EvalRoute | plugins/sudos.py:123-124 | `!eval` runs exactly when the first word is `!eval`, with source `text[6:]` |
| Sudos.PluginListRoute | plugins/sudos.py:139-141 | `!plist` runs exactly when the first word is `!plist`, reporting tracebacks when the text after the first space is exactly "errors" |
| Sudos.UploadRoute | plugins/sudos.py:158-159 | `!upload` runs exactly for texts starting with "!upload", wherever the first word ends, with folder `text[8:]` |
| Sudos.LiteralRoute | plugins/sudos.py:176-335 | each command behind an equality test runs exactly when that test holds |
| Sudos.RestartRoute | plugins/sudos.py:176 | `!restart` runs exactly for "!restart" and "!restart @" followed by the bot's username |
| Sudos.ShellRoute | plugins/sudos.py:184-185 | `!cmd` runs exactly when the first word is `!cmd`, with command line `text[5:]` |
| Sudos.SendFileRoute | plugins/sudos.py:201-202 | `!doc` runs exactly when the first word is `!doc`, with path `text[5:]` |
| Sudos.DeleteRoute | plugins/sudos.py:217 | `!del` runs exactly for the text "!del" |
| Sudos.ExecRoute | plugins/sudos.py:230-231 | `!exec` runs exactly when the first word is `!exec`, with source `text[6:]` |
| Sudos.UpgradeRoute | plugins/sudos.py:251 | `!upgrade` runs exactly for the text "!upgrade" |
| Sudos.LeaveTarget | plugins/sudos.py:270-274 | a text starting with "!leave" leaves the chat named by its second word when it has exactly two words, and the current chat otherwise |
| Sudos.ChatTarget | plugins/sudos.py:283-287 | a text starting with "!chat" asks about the current chat when it has no space, and about the chat its second word names when it has a space and a second word (with a space and a single word it crashes, see `CrashRoute`) |
| Sudos.PromoteRoute | plugins/sudos.py:335 | `!promote` runs exactly for the text "!promote" |
| Sudos.BackupRoute | plugins/sudos.py:354-358 | `!backup` runs exactly when the first word is `!backup`, and goes to the sender exactly when the lower-cased text contains "pv" or "privado" |
| Sudos.LateRouteOnly | plugins/sudos.py:270-283 | only a text starting with "!leave" leaves a chat and only a text starting with "!chat" asks about one, so with `LeaveTarget` and `ChatTarget` these commands run exactly on their prefixes |
| Sudos.IgnoredRoute | plugins/sudos.py:102-358 | a text is ignored exactly when it has a first word that is no keyword and passes no equality and no `startswith` test |
| Sudos.CrashRoute | plugins/sudos.py:123-285 | an IndexError escapes the handler exactly for a blank text (`split()[0]`) or a text starting with "!chat" that holds a space but has fewer than two words (`split()[1]`) |
| Sudos.ChatWithoutTargetCrashes | plugins/sudos.py:284-285 | "!chat" followed only by separators, at least one of them a space (such as "!chat "), crashes instead of describing the current chat |
| Sudos.EvalBindings | plugins/sudos.py:93-96 | `getattrs` gives `m`, `c` and `git`, in that order and each once, bound to the message, the client and the repository |
| Sudos.EvalParameters | plugins/sudos.py:93-96 | an `!eval` snippet receives `m`, `c` and `git`, in that order, as its keyword-only parameters, then the hidden binding, whose name is never one of the three |
| Sudos.HandleEval | plugins/sudos.py:123-133 | the namespace is the one `meval` leaves; the reply is `str` of the result, or the traceback of an `Exception`; there is no reply exactly when `meval` raises a `BaseException` that `except Exception` does not catch |
| Sudos.UploadPath | plugins/sudos.py:166-167 | the file keeps its own name, inside the named folder when the payload is non-empty |
| Sudos.BackupChat | plugins/sudos.py:358-359 | the archive goes to the sender when the lower-cased text contains "pv" or "privado", and to the current chat otherwise |
| Sudos.SendsArchive | plugins/sudos.py:365 | the archive is sent exactly when its size is at most 50 MiB (52428800 bytes) |
| Sudos.ExecSource | plugins/sudos.py:238 | the compiled source is the header, a newline and a space, then the payload with every newline widened to " \n ": each payload line becomes a body line indented by one space |
| Sudos.JoinIndented | plugins/sudos.py:238 | joining the indented lines with one space equals a leading "\n " followed by the lines joined with " \n " |
| Sudos.JoinLines | plugins/sudos.py:238 | joining the `split('\n')` pieces with " \n " widens every newline of the payload |
| Sudos.ExecReply | plugins/sudos.py:239-243 | the reply is the traceback when anything raised, otherwise the captured text or the placeholder when nothing was printed; it is empty only for an empty traceback |
| Sudos.HandleExec | plugins/sudos.py:230-243 | `msg` and `text` are merged into the namespace for good before the block runs there, and the reply is `ExecReply` of the run |
| Sudos.Forbidden | plugins/sudos.py:186 | `re.match` with the loose alternation refuses a command exactly when "poweroff" occurs, ignoring case, before the first newline, or the command starts with "halt", "shutdown" or "reboot", ignoring case |
| Sudos.DotStarThenAt | plugins/sudos.py:186 | the `.*poweroff` alternative holds exactly when "poweroff" occurs, ignoring case, before the first newline |
| Sudos.NoFirstLetter | plugins/sudos.py:186 | for a word whose first letter is not 's', a command without that letter in either case cannot match `.*` followed by that word |
| Sudos.SudoCommand | plugins/sudos.py:186 | a command "sudo …" is refused exactly when "poweroff" occurs on its first line: the anchored alternatives can never match after "sudo " |
| Sudos.SudoWithoutPIsRun | plugins/sudos.py:186-194 | "sudo reboot", and any sudo command without a 'p', is run and not refused |
| Sudos.UntilTag | plugins/sudos.py:193-194 | the text read up to the first '<' is a prefix of the reply |
| Sudos.ReadWrittenSection | plugins/sudos.py:193-194 | an Output or Errors section written for non-empty text reads back as exactly that text |
| Sudos.CmdReply | plugins/sudos.py:186-196 | there is no reply exactly when the command is not refused and its stdout or stderr is not UTF-8, so that `decode()` raises |
| Sudos.CmdReplyReadBack | plugins/sudos.py:186-196 | the `!cmd` reply, when there is one, loses nothing: it tells a refused command apart, and otherwise gives back exactly the command's stdout and stderr, with "Comando executado." standing for both empty |
| Sudos.FailedNames | plugins/sudos.py:151 | the names of the failed plugins, in load order |
| Sudos.PluginReport | plugins/sudos.py:150-151 | the report starts with the active header and the sorted active names, and goes on exactly when some plugin failed |
| Sudos.PluginReportActive | plugins/sudos.py:150 | the report starts with the active count, which reads back as the number of active plugins, and then the active names sorted, as a permutation of the active list |
| Sudos.PluginReportInactive | plugins/sudos.py:151 | when some plugin failed, the report goes on with the failed count, which reads back as that number, then the failed names sorted and as a permutation of the failed list, then the hint to ask for `!plist errors` |
| Sudos.ErrorsReport | plugins/sudos.py:142-145 | the fixed "All plugins loaded without any errors." is sent exactly when no plugin failed |
| Sudos.ReadJoinedEntries | plugins/sudos.py:143 | the entries joined by newlines read back as the failed plugins with their tracebacks, in load order |
| Sudos.ErrorsReportReadBack | plugins/sudos.py:142-145 | the `!plist errors` reply loses nothing: reading it back gives every failed plugin's name and exact traceback, in load order, provided no name holds a '<' |
| PyText.Lower | plugins/sudos.py:358 | `lower()` keeps the length and lowers each ASCII letter in place |
| PyText.Words | plugins/sudos.py:123 | every piece of `split()` is a non-empty run of non-separators; which runs, in which order, is `WordsCons` |
| PyText.WordsCons | plugins/sudos.py:123 | separators, then a word, then a rest that starts at a separator split to that word followed by the split of the rest: with `WordsEmptyIffBlank` this fixes `split()` on every text |
| PyText.WordsAtWord | plugins/sudos.py:123 | a text that starts with a word ending at a separator or at the end splits to that word followed by the split of the rest |
| PyText.WordsEmptyIffBlank | plugins/sudos.py:123 | `split()` is empty, so `split()[0]` raises, exactly when the text holds only separators |
| PyText.FirstWordExtends | plugins/sudos.py:158 | a text that starts with a word has a first `split()` word that starts with it too |
| PyText.WordThenBlank | plugins/sudos.py:284-285 | a word followed only by separators splits to that word alone |
| PyText.ContainsAt | plugins/sudos.py:358 | `sub in s` holds exactly when `sub` occurs at some position of `s` |
| PyText.Split | plugins/sudos.py:238 | `split(sep)` gives at least one piece and no piece holds the separator |
| PyText.JoinSplit | plugins/sudos.py:238 | joining the pieces of `split(sep)` with `sep` gives the text back |
| PyText.AfterFirst | plugins/sudos.py:141 | `split(' ', 1)[-1]` is what follows the first space, or the whole text when there is none |
| PyText.Escape | plugins/sudos.py:193-194 | `html.escape` leaves no `<`, `>`, `"` or `'` in its result |
| PyText.UnescapeEscape | plugins/sudos.py:193-194 | escaping loses nothing: reading the entities back gives the original text |
| PyText.Sort | plugins/sudos.py:150-151 | `sorted` gives an ordered permutation of its input |
| PyText.Decimal | plugins/sudos.py:150-151 | `str(n)` is a non-empty string of decimal digits with no leading zero |
| PyText.DecimalRoundTrip | plugins/sudos.py:150-151 | reading `str(n)` back as a decimal number gives `n` |

## Left out

- Telegram client calls are not modelled: sending, editing, deleting, documents, downloads, leaving, promoting, chat lookup. Neither are their `TelegramError` fallbacks. They are network I/O. What the handler sends is a function of the text (`Route`, `ExecReply`, `CmdReply`, the reports), and the caller does the sending.
- Python's parser, compiler and `exec`, and the `redirect_stdout` capture, are the foreign interpreter. They are parameters: the `Runtime` fields in `meval`, and the `exec` function in `HandleExec`. `str(res)` and `traceback.format_exc` are also parameters of `HandleEval`. Which exceptions are `BaseException`s outside `Exception` is the `Escaped` case of the error the runtime raises.
- The bytecode magic-number check that sets `posonlyargs` is an interpreter-version detail. The unit always has `posonlyargs=[]`.
- The model has no subprocesses (`!cmd`, `!upgrade`), `os.execl`, `asyncio.sleep` or `db.set_restarted`: these are process and OS effects. The `!cmd` shell is a parameter giving stdout and stderr as they decode: a UTF-8 text, or bytes on which `decode()` raises.
- There is no file-system work: `open`, `os.path.getsize`, `os.remove`, `backup_sources`, `download_file`. `datetime.now()` is left out too. The archive size is a parameter of `SendsArchive`.
- The bodies of the `!del`, `!upgrade`, `!promote` and `!chat` handlers are left out, and so is the `!doc` handler's `if text:` test. The model fixes which text reaches each one and with which payload or target. `!del` and `!upgrade` are client calls and a subprocess. `!chat` formats the chat information that `getChat`, `exportChatInviteLink` and `getChatMembersCount` return, and `!promote` copies the bot's own administrator rights from `getChatAdministrators`: both work on data only the messaging service gives.
- `!upload` does nothing without a replied-to document. The model gives the folder the command takes and the path the file is stored at, not the reply test.
- Concurrent `meval` calls interleaving on the shared namespace are not modelled: the model is sequential.
- Meval.Namespace.Meval: the awaitable test stands for `isinstance(r, CoroutineType) or isinstance(r, Future)`. The `locs` dict and the lookup of `tmp` in it are folded into the `Runtime.call` step.
- Sudos.BackupChat: returns the chat to use rather than rewriting `msg['chat']['id']` in place, so the aliasing of that write to later reads of the message is not modelled.
- PyText.Lower: lowers ASCII letters only. For the substrings "pv" and "privado" this gives the same answer as Python's full `lower()`: the only non-ASCII character whose lower case contains one of their letters is U+0130, which lowers to 'i' followed by U+0307.
- PyText.Words: `isspace()` is the fixed list of Unicode whitespace code points, not derived from the Unicode database.
