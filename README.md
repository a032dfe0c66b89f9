# candy_shell: a model of the shell's process bookkeeping

`candy_shell.c` is a small interactive shell. It reads a line, records it in
a history, splits it into words, and runs one of its built-in commands:
- `background`, `run` and `repeat` start programs;
- `exterminate` and `exterminateall` kill background processes;
- `lastcommands` lists or clears the history;
- `changedir`, `whereami` and `quit` do what their names say.

The shell keeps the pids of its background children in a singly linked list.
This project models that list and the code that changes it.

The model is imperative where the C code is:
- The list is a `Registry.ProcessList` header over `Registry.Node` cells, which are relinked in place.
- Each header has a ghost sequence `Contents` (the pids in list order) and a ghost sequence `nodes` (the cells in order).
- `Valid()` ties them to the pointer chain.
- The methods that walk or relink the list carry loop invariants, and their contracts give the new `Contents` as a function of the old one.

The operating system is replaced by its answers, passed in as parameters:
- `fork`: the pid it returned, or one per spawn for `repeat`.
- `waitpid`: the sequence of `(return value, errno == EINTR, status)` results returned by successive calls.
- `kill(pid, SIGKILL)`: a predicate `killed: int -> bool`, telling whether the call succeeds. The answer is fixed per pid: a kill that fails for a pid fails again on every retry for that pid.

Modules:
- `Registry` (registry.dfy) models `newNode`, `printList`, `appendNode` and `deleteID`. It also holds the pure function `RemoveFirst` with its lemmas.
- `Terminator` (terminator.dfy) models `exterm` and `exterminateAll`:
  - `ExterminateAll` passes its cursor `&curr` to `Exterm` as a second header over the same cells (`ProcessList.Alias`).
  - `Pass` is the pure state of that loop. Its lemmas say what the loop does when a kill fails.
- `Spawner` (spawner.dfy) models `run`, its wait loop, the status classification, and `repeat`.
- `Tokenizer` (tokenizer.dfy) models `tokenize`. It is array-backed with growth by `BUFSIZE`, and one `strtok` call is the function `Strtok`.
- `CString` (cstring.dfy) models `isnumber`, `isspace` and `atoi` as they act on typed words.
- `Dispatcher` (dispatcher.dfy) models the argument checks of `main` (`Decide`) and one pass of its read loop (`Shell.Step`).

Behaviour the code shows that a reader might not expect (the model follows the code):
- `exterm` returns 0 whenever `kill` succeeds, even for a pid that is not registered. The shell never reaps its background children. On systems where `kill` succeeds on such an unreaped child (Linux, for one), a second `exterminate P` reports success again, not "not found". On a system where it fails instead, one background child that has already exited makes `exterminateall` loop forever.
- `exterminateAll` does not empty the registry when a kill fails. `curr` then never moves. The kill oracle gives the same answer on every retry, so the loop runs forever. `*head = NULL` is reached only when every kill works (`PassExitsIffAllKilled`).
- Line 60 of `deleteID` stores back into `curr->next` the value it already holds. The unlink is correct: exactly the first cell holding the pid leaves the list.
- In `main`, the `args == NULL` test under `background` can never be true. `background` with no program still forks and registers a child, whose `execv` then fails.
- `exterminate` accepts any word that starts with a digit, and hands `atoi` of it to `kill`. For a numeral that fits in an `int` the pid is therefore never negative, but it can be 0: `exterminate 0` calls `kill(0, SIGKILL)`, which kills the shell's whole process group, the shell itself included, so `exterm` never returns. A longer numeral overflows `atoi`: under glibc, `exterminate 4294967295` passes -1 to `kill`, which signals every process the user may signal.

## Model

| member | source | states |
|---|---|---|
| Registry.Node.constructor | candy_shell.c:21-27 | a new cell holds the pid and has no successor |
| Registry.ProcessList.constructor | candy_shell.c:238 | the empty registry is a valid list with no pids |
| Registry.ProcessList.Alias | candy_shell.c:212 | a local copy of the head pointer is a valid header over the very same cells and pids |
| Registry.ProcessList.Print | candy_shell.c:29-36 | the walk from the head visits exactly the registered pids, in list order |
| Registry.ProcessList.Append | candy_shell.c:38-50 | the pids become the old ones followed by `pid`; the new cell is fresh and last; an empty list gets it as head, otherwise the head stays; every earlier cell keeps its place, and no cell but the old tail is written |
| Registry.ProcessList.DeleteId | candy_shell.c:52-69 | the pids become `RemoveFirst(old pids, pid)`; an absent pid changes nothing; a match at the head moves the head to its successor and writes no cell |
| Registry.ProcessList.UnlinkAfter | candy_shell.c:58-61 | relinking the predecessor past the matched cell leaves a valid list without that cell and its pid, the rest in order, and writes only the predecessor and the cell |
| Registry.ProcessList.Clear | candy_shell.c:225 | setting the head to NULL leaves a valid empty list |
| Registry.RemoveFirst | candy_shell.c:52-69 | removal shortens the list by one exactly when the pid is present |
| Registry.RemoveFirstAbsent | candy_shell.c:54-68 | removing a pid that is not listed leaves the list as it was |
| Registry.RemoveFirstAt | candy_shell.c:54-64 | with `k` the first position holding the pid, exactly entry `k` goes and the rest keep their order |
| Registry.RemoveFirstMembers | candy_shell.c:52-69 | removal invents no pid and keeps every pid other than the removed one |
| Registry.RemoveFirstErases | candy_shell.c:52-69 | in a list without duplicates the removed pid is gone afterwards and no duplicate appears |
| Registry.RemoveFirstUndoesAppend | candy_shell.c:38-69 | deleting a pid just appended to a list not holding it restores the list |
| Terminator.Exterm | candy_shell.c:106-115 | a failed kill returns 1 and changes nothing; a successful kill returns 0 and leaves the pids as `RemoveFirst` of the old ones |
| Terminator.ExtermFirst | candy_shell.c:221 | `exterm(&curr, curr->data)` with a working kill moves the cursor exactly one cell on and writes no cell |
| Terminator.KillStep | candy_shell.c:221 | one pass of the loop body either leaves what is ahead of `curr` as it was or drops its first pid, and it drops it exactly when the kill at `curr` works |
| Terminator.Pass | candy_shell.c:220-223 | after any number of passes what is left ahead of `curr` is never longer than the list and is shorter by at most one pid per pass |
| Terminator.PassIsTail | candy_shell.c:220-223 | what is left ahead of `curr` after any number of passes is a tail of the list: the cursor only moves forward |
| Terminator.PassKillsInOrder | candy_shell.c:220-223 | while kills work, each pass of the loop consumes the next pid in list order |
| Terminator.PassStuckOnFailedKill | candy_shell.c:220-223 | a failed kill at the cursor leaves the cursor's remainder unchanged for every later pass, so the loop never exits |
| Terminator.PassCountsAll | candy_shell.c:220-223 | with every kill working, the loop exits after exactly as many passes as there are pids and not before |
| Terminator.PassNeverEmpties | candy_shell.c:220-223 | one registered pid whose kill fails keeps the loop running for any number of passes |
| Terminator.PassExitsIffAllKilled | candy_shell.c:220-223 | the loop ever exits if and only if every registered pid can be killed |
| Terminator.ExterminateAll | candy_shell.c:211-227 | an empty registry returns 1 and changes nothing; otherwise the loop runs once per pid, `n` equals the number of pids, 0 is returned and the registry is empty |
| Spawner.SettledAt | candy_shell.c:150-152 | the wait loop ends at the first `waitpid` call that was not interrupted |
| Spawner.WaitForChild | candy_shell.c:150-152 | `waitpid` is called again only after a -1 with `EINTR`; the result and status are those of the first other call |
| Spawner.Classify | candy_shell.c:154-161 | a failed wait comes first, then exited, then signaled, then stopped, and nothing is reported when no test holds |
| Spawner.ClassifyKernelStatus | candy_shell.c:154-161 | for a status of exactly one kind, the report names that kind with its exit code or signal |
| Spawner.Run | candy_shell.c:134-169 | fork failure ends the shell; in the child the outcome hands the program to `execv`; a background child in the parent appends exactly its pid; a foreground child is waited for, classified, and the registry is untouched |
| Spawner.Returning | candy_shell.c:206-207 | the spawns of `repeat` that come back are the leading run of positive fork results |
| Spawner.Repeat | candy_shell.c:193-209 | a count of 0 changes nothing; otherwise the child pids of the spawns that came back are appended at the tail in spawn order, up to max(count, 0) of them, and the first spawn that does not come back says why |
| Tokenizer.Strtok | candy_shell.c:80-92 | one call skips the spaces and returns the next word and where the following call resumes, or NULL when no word is left |
| Tokenizer.NextWord | candy_shell.c:80-92 | when `words[i..]` are the words still ahead, the next `strtok` call returns `words[i]`, and NULL exactly when none is left |
| Tokenizer.WordsWellFormed | candy_shell.c:13 | no token is empty and none contains a space |
| Tokenizer.WordsOfJoin | candy_shell.c:80-94 | splitting a line of words typed with single spaces gives back those words |
| Tokenizer.WordsKeepAllCharacters | candy_shell.c:80-94 | the tokens together hold every character of the line except the spaces, in order |
| Tokenizer.Grow | candy_shell.c:84-90 | the larger array begins with the old slots |
| Tokenizer.Capacity | candy_shell.c:72-86 | the capacity for a token count is the smallest multiple of `BUFSIZE` above it |
| Tokenizer.CapacityNext | candy_shell.c:82-86 | one more token keeps the capacity, unless the store fills the array, in which case the capacity grows by exactly `BUFSIZE` |
| Tokenizer.Push | candy_shell.c:82-91 | the store keeps every earlier token, puts the new one after them, and leaves the capacity of one more token |
| Tokenizer.Tokenize | candy_shell.c:71-96 | the array holds the words of the line in order, then NULL; its capacity is `Capacity` of the word count, so the final NULL store is in bounds |
| CString.IsDigit | candy_shell.c:270 | `isnumber` holds exactly for the ten decimal digits |
| CString.Atoi | candy_shell.c:270-273 | `atoi` (also used at lines 196 and 307) is negative only after a minus sign, is not negative for a word starting with a digit, and is 0 for a word starting with anything other than white space, a sign or a digit |
| CString.DecimalValueOfDecimal | candy_shell.c:273 | the digits of a number written in base 10 spell that number |
| CString.AtoiOfDecimal | candy_shell.c:273 | `atoi` reads back every non-negative number written in base 10 |
| Dispatcher.Decide | candy_shell.c:255-324 | only the nine command names are accepted; `exterminate` passes a non-negative pid; `run` passes a non-empty program; `repeat` is reached only with a count of at least 1 and a program |
| Dispatcher.DecideExterminateTyped | candy_shell.c:268-274 | `exterminate` followed by a pid in base 10 selects exactly that pid |
| Dispatcher.DecideRepeatTyped | candy_shell.c:305-316 | `repeat` with a count of 0 or without a program is turned away; otherwise `repeat` gets the words as typed |
| Dispatcher.Shell.constructor | candy_shell.c:235-238 | the shell starts with an empty registry and an empty history |
| Dispatcher.Shell.Step | candy_shell.c:240-325 | `quit` as the first line exits unrecorded; any other line is recorded before its command runs, which then acts as `Executed` describes for the command `Decide` picks from the line's words: the exact outcome of `run` (fork failure, child side, registered background pid, or the classified wait of a foreground child) and of `repeat`, `exterm`'s result, and the pass count of `exterminateall`; a line whose command keeps the registry leaves it untouched |
| Dispatcher.RegistryChangesOnlyBySpawnOrKill | candy_shell.c:254-324 | only `background`, `repeat`, `exterminate` and `exterminateall` change the registered pids; `run`, `lastcommands`, `quit` and the message-only branches keep them |
| Dispatcher.RunLineReportsExit | candy_shell.c:287-295 | a `run` line whose fork returns 5 and whose wait finds exit status 3 reports exactly that foreground exit and registers nothing |
| Dispatcher.BackgroundLineForkFails | candy_shell.c:255-261 | a `background` line whose fork fails reports the failure and registers nothing |
| Dispatcher.Shell.Execute | candy_shell.c:254-324 | each branch leaves the history, the registry and the reported effect as `Executed` describes, down to the exact spawn and repeat outcomes; message-only and outside branches, `lastcommands` and `quit` leave the registry untouched |
| Dispatcher.Shell.Spawn | candy_shell.c:254-316 | `background` and `run` report `run`'s exact outcome: a failed fork, the child side with the program, the registered background pid, or the foreground pid with the classification of the settling wait; only a background child is appended; `repeat` appends the pids of the spawns that came back and reports whether all came back or why the first one did not |
| Dispatcher.Shell.SpawnOne | candy_shell.c:255-296 | `background` and `run` call `run` once and report its exact outcome; only a background child's pid is appended |
| Dispatcher.Shell.Kill | candy_shell.c:267-320 | `exterminate` reports `exterm`'s result and removes the pid on a working kill; `exterminateall` reports its result and pass count and empties the registry |

## Left out

- Terminal I/O (`printf`, `perror`, `scanf`) is left out. What each branch prints is not modelled; only which branch is taken. One consequence: line 161 prints `WIFSTOPPED(status)` rather than the stop signal, and this output quirk is not represented.
- The real `fork`, `execv`, `_exit`, `waitpid` and `kill` are replaced by oracle parameters. Process creation, signals and scheduling are outside the model.
- `InChild` and `ForkFailed` are returned as outcomes. The model does not continue into `execv` in the child or into `exit(EXIT_FAILURE)`.
- `malloc`, `realloc` and `free` are not modelled:
  - allocation always succeeds, and the `exit(EXIT_FAILURE)` paths after a failed allocation are not modelled;
  - `free(curr)` in `deleteID` is not modelled (Dafny is garbage collected);
  - the "Did not free" checks in `lastcommands` and `quit` can never fire and are not modelled.
- `changedir` and `whereami` wrap `chdir` and `getcwd` and have no state in the model; a pass running them has no modelled effect.
- The fixed buffers `input[1024]` and `commands[1024]` are not modelled: the line and the history are unbounded sequences, so their overflow is not represented.
- Tokenizer.Tokenize: tokens are copies of the words rather than pointers into the NUL-patched input buffer, so the aliasing between `args` and `input` is not represented.
- CString.AtoiOfDecimal: `atoi` is modelled on unbounded integers; overflow of `int` and of `pid_t` is not represented.
- Dispatcher.Shell.Step, Terminator.Exterm: `kill(0, SIGKILL)` signals the shell's own process group and ends the shell, but the kill oracle cannot say so; for `exterminate 0` with a working kill the model reports `Killed(0)` and the shell carries on.
- Dispatcher.Decide: its non-negative `exterminate` pid holds on unbounded integers. In C it holds only for numerals that fit in an `int`, because `atoi` overflows on longer ones.
- `isnumber` is modelled on ASCII digits only; its locale behaviour is not represented.
- Terminator.ExterminateAll: requires every registered pid to be killable, because otherwise the C loop never ends. The never-ending run is stated by `PassStuckOnFailedKill`, `PassNeverEmpties` and `PassExitsIffAllKilled` on the pure loop state `Pass`.
- Spawner.WaitForChild, Spawner.Run: require that some `waitpid` call eventually returns something other than -1 with `EINTR`. An endless stream of interrupted waits, on which the C loop never ends, is not modelled.
- `waitpid(pid, &status, 0)` never reports a stopped child, since option 0 does not ask for stops. The wait oracle may still answer with a stopped status, so the `Stopped` report is reachable in the model only through such an answer.
- Dispatcher.Shell.Step: requires the line to start with a non-space character, as `scanf(" %[^\n\r]")` guarantees. It requires the oracles to answer as `OraclesSuffice` says; only then does every handler come back. It does not model `scanf` failing at end of input. In that case `input` keeps what the previous pass left in it. `strtok` wrote a NUL after that line's first word (lines 80 and 92), so only that first word is recorded and run again, on every later pass.
- The do-while loop of `main` is modelled one pass at a time (`Shell.Step`), not as an unbounded run.
