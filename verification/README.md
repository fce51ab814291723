# Customer-service chatbot: dispatcher and to-do list, in Dafny

The chatbot (`app.py`) classifies a free-text utterance with a language model,
then dispatches on the returned category label. This project models the
deterministic part that runs after classification:

- **Dispatch** (module `Dispatch`, `dispatch.dfy`). The category label is any
  string. It picks one of six branches by exact equality, or no branch. Each
  branch pulls its argument out of the utterance the way the source does: it
  deletes every occurrence of a literal keyword with `str.replace(k, "")`, then
  calls `strip()`. The task branch tests for "add", "view" and "remove"
  anywhere in the utterance, in that order. Calls that leave the process become
  `Reply` values instead of being performed:
  - `WeatherLookup(city)` is the provider query of `get_weather`.
  - `NewsLookup` is `get_news()`.
  - `AskModel(question)` is the general-knowledge completion.
- **To-do list** (module `Todo`, `todo.dfy`). The module-level list becomes a
  `seq<string>` that every call takes and returns. `add`, `view` and `remove`
  are pure functions returning the response (`None` for an unknown action)
  together with the new list.
- **Handlers** (module `Handlers`, `handlers.dfy`). These are the reminder and
  event templates, the recommendation table, and the empty-city guard at the
  top of `get_weather`.
- **Python string operations** (module `PyStr`, `pystr.dfy`). These are `p in s`,
  `s.replace(p, "")`, `s.strip()`, `s.lower()` and `"\n".join`. Two more operations
  are auxiliary: app.py calls neither. `s.count(p)` counts the occurrences a
  deletion removes, and `split` reads a joined view back. Each operation is tied
  to a description that does not repeat its scan:
  - the scan for `in` agrees with "occurs at some index";
  - `replace(p, "")` cuts the string at its leftmost non-overlapping
    occurrences of `p` and keeps the gaps, in order; `count(p)` is the number
    of cuts;
  - `strip()` returns the unique trimmed slice;
  - `lower()` is given character by character;
  - joining a split gives the text back for every text. Splitting a join gives
    the parts back when the list is non-empty and no part holds the separator.
    `Join([])` is the empty text, which splits to `[""]`.
- **Script runs** (also in `dispatch.dfy`). Streamlit runs the whole script again
  for every submitted input. The module-level `to_do_list = []` (app.py:103) is
  therefore rebound to the empty list before each request is dispatched.
  `Dispatch.Session` models this. `Dispatch.PersistentSession` models the
  behaviour the to-do branch evidently expects, with one list kept across
  inputs. See "## Findings".

Some behaviours of the source are stated as lemmas:
- Every input starts from an empty list. A view therefore always shows
  "To-do list is empty." (`Dispatch.ViewAlwaysEmpty`), and a removal always
  answers "Task not found." (`Dispatch.RemoveNeverFinds`).
- `view` shows an empty list and the list `["To-do list is empty."]` the same
  way (`Todo.ViewIsAmbiguous`).
- Deleting "add" also cuts it out of words: "add address" adds the task "ress"
  (`Dispatch.AddDeletedInsideWords`).
- "add" wins over everything else: "remove add" adds the task "remove"
  (`Dispatch.AddWinsOverEverything`).
- "view" is tested before "remove", so "remove review" shows the list
  (`Dispatch.ViewWinsOverRemove`).
- Deleting a multi-character keyword can leave a new occurrence behind
  (`PyStr.RemovalMayLeavePattern`).
- A label outside the six, or a task request with none of the three keywords,
  gets no reply (`Silent`). No branch of the dispatcher covers these cases.
- `list.remove` takes the first occurrence only. A removed task is still
  listed exactly when it was listed more than once
  (`Todo.RemoveLeavesDuplicates`).

## Model

| member | source | states |
|---|---|---|
| PyStr.Contains | app.py:165-190 | Python's `p in s`, as used by every keyword test of the dispatcher: a contained pattern is never longer than the string; its exact meaning is stated by `PyStr.ContainsIffOccurs` |
| PyStr.ContainsIffOccurs | app.py:177-184 | the substring test `p in s` holds exactly when `p` occurs in `s` at some index |
| PyStr.ContainsChar | app.py:166 | a one-character string is contained exactly when that character occurs |
| PyStr.RemoveAll | app.py:155 | `s.replace(p, "")` is no longer than `s` and introduces no character `s` lacks |
| PyStr.RemoveAllLength | app.py:178 | deletion removes exactly `s.count(p)` occurrences: `len(result) + len(p) * count == len(s)` |
| PyStr.RemoveAllByGaps | app.py:155 | whenever `s` is cut at leftmost non-overlapping occurrences of `p` into gaps, `s.replace(p, "")` is the gaps joined in order and `s.count(p)` is the number of cuts |
| PyStr.RemoveAllDeletesLeftmost | app.py:155 | every string has such a cutting for a non-empty `p`, and `replace` and `count` return what it gives |
| PyStr.CountPositiveIffContains | app.py:177-178 | a non-empty keyword is counted at least once exactly when it occurs |
| PyStr.RemoveAllIdentityIff | app.py:160 | deletion leaves the utterance unchanged exactly when the keyword is empty or absent |
| PyStr.RemoveSingleCharComplete | app.py:166 | deleting "?" leaves no "?" behind |
| PyStr.RemovalMayLeavePattern | app.py:178 | deleting "add" from "aadddd" leaves "add": deletion of a longer keyword is not idempotent |
| PyStr.Strip | app.py:35 | `strip()` returns a slice with only whitespace before and after it, empty or starting and ending with non-whitespace |
| PyStr.StripIsTrimmed | app.py:35 | any slice with whitespace around it and non-whitespace ends is what `strip()` returns |
| PyStr.StripIdempotent | app.py:166-167 | stripping the city twice, once in the dispatcher and once in `get_weather`, is stripping once |
| PyStr.StripEmptyIff | app.py:35-36 | `strip()` is empty exactly when the input is all whitespace |
| PyStr.StripIsPiece | app.py:155 | the stripped text is a piece of its input: no longer, same characters, contains nothing new |
| PyStr.Lower | app.py:165-166 | `lower()` keeps the length, leaves no upper-case letter and changes only upper-case letters |
| PyStr.LowerIdempotent | app.py:165-166 | lower-casing twice is lower-casing once |
| PyStr.Join | app.py:113 | `"\n".join(tasks)`: the empty list joins to the empty text; otherwise the text starts with the first task and its length is the tasks' lengths plus one separator between each two |
| PyStr.SplitJoin | app.py:113 | splitting the joined view text at line breaks gives the tasks back when none holds a line break |
| PyStr.JoinSplit | app.py:113 | joining the pieces of a split gives the original text back |
| PyStr.JoinContainsParts | app.py:113 | every task can be found in the joined text |
| Todo.IndexOf | app.py:115-116 | the index found holds the task and no earlier element equals it |
| Todo.RemoveFirst | app.py:116 | `list.remove` cuts out the first occurrence only; the others keep their order and the multiset loses one copy |
| Todo.Add | app.py:106-111 | a truthy task is appended at the end with the confirmation "Task added: "; a missing or empty task changes nothing and gets "No task provided." |
| Todo.View | app.py:112-113 | an empty list gives "To-do list is empty."; a non-empty list gives `"\n".join` of the tasks, in which every task appears and which splits back into the list when no task holds a line break |
| Todo.Remove | app.py:114-119 | a listed task loses its first occurrence and the list shrinks by one; otherwise nothing changes and "Task not found." is returned |
| Todo.Manage | app.py:105-119 | "add" is `Todo.Add` (append at the end), "view" is `Todo.View` with the list unchanged, "remove" is `Todo.Remove` (first occurrence); only these three respond and other actions change nothing; the list changes by exactly the added or removed task; no empty task ever appears |
| Todo.RemoveKeepsNonEmpty | app.py:114-117 | removal lists nothing new |
| Todo.AddThenRemoveRestores | app.py:106-117 | adding a task not yet listed and removing it restores the list |
| Todo.AddThenViewShowsTask | app.py:106-113 | after a task is added, the view shows it |
| Todo.RemoveLeavesDuplicates | app.py:108-116 | after removal the task is still listed exactly when it was listed more than once |
| Todo.ViewIsAmbiguous | app.py:113 | the list `["To-do list is empty."]` views the same as the empty list |
| Todo.Run | app.py:103-119 | successive `manage_todo_list` calls on the module-level list give one response per call; without `add` calls nothing is gained, without `remove` calls nothing is lost, and with neither the list ends as it started |
| Todo.RunKeepsTasksNonEmpty | app.py:103-119 | from a list without empty tasks, no sequence of calls lists an empty task |
| Todo.BuyMilkScenario | app.py:105-119 | add "buy milk", view, remove, view: the view shows "buy milk" and the list ends empty |
| Handlers.SetReminder | app.py:26-27 | the reminder reply is "Reminder set: " followed by the reminder text, which can be read back |
| Handlers.ScheduleEvent | app.py:30-31 | the event reply is "Event scheduled: " followed by the details, which can be read back |
| Handlers.ConfirmationsInjective | app.py:26-31 | different reminders (events) give different confirmations |
| Handlers.GetRecommendations | app.py:122-126 | the restaurant text exactly for the key "restaurants"; "No recommendations available for this category." for every other key |
| Handlers.GetWeather | app.py:34-37 | a blank city is refused with "City name cannot be empty."; otherwise the query uses the city with surrounding whitespace cut off |
| Handlers.GetWeatherOfStripped | app.py:34-37 | an already-stripped city passes the guard unchanged, or is refused when empty |
| Dispatch.Argument | app.py:155-160 | the extracted argument has no surrounding whitespace, is shorter than the utterance by at least the deleted occurrences, holds no new character, and lacks a one-character keyword |
| Dispatch.CityArgument | app.py:166 | the extracted city has no surrounding whitespace, no upper-case letter and no "?" |
| Dispatch.RetrieveInformation | app.py:164-174 | "weather" (case-insensitive) goes to the weather guard with the extracted city; otherwise "news" goes to the news handler; otherwise "Sorry, I can't help with that." |
| Dispatch.ManageTasks | app.py:176-187 | "add" anywhere wins and adds the extracted task; else "view" shows the list unchanged; else "remove" removes the extracted task; with none of the three there is no reply and no change |
| Dispatch.Assist | app.py:189-196 | with "recommend", the restaurant text exactly when the extracted key is "restaurants", otherwise the no-recommendations text; without it, "How can I assist you further?" |
| Dispatch.Respond | app.py:148-200 | no reply exactly for an empty utterance, a label outside the six, or a task request with none of the keywords; otherwise each label gets its own branch: the reminder and event confirmations, `RetrieveInformation`, `ManageTasks` (the only branch that changes the list), `Assist`, and the question to the model unchanged; looked-up cities are clean |
| Dispatch.OtherBranch | app.py:153-200 | the non-task labels: the reminder and event confirmations with their extracted arguments, `RetrieveInformation` for information retrieval (weather lookups only for clean cities, news exactly for "news" without "weather"), `Assist` for general assistance, the model question unchanged, and no reply exactly for a label outside the six |
| Dispatch.Cycle | app.py:103-200 | one script run starts from the empty list, so when it ends at most one task is listed, and one is listed exactly when a task request says "add" with a non-empty task |
| Dispatch.Session | app.py:103-200 | successive inputs each get the reply their own request gets from the empty list, whatever came before |
| Dispatch.ViewAlwaysEmpty | app.py:103-113 | a task request to view, at any point of a session, shows "To-do list is empty." |
| Dispatch.RemoveNeverFinds | app.py:103-119 | a task request to remove, at any point of a session, answers "Task not found." |
| Dispatch.MilkForgotten | app.py:103-183 | "milk add" then "view": the add is confirmed and the view shows the empty list |
| Dispatch.PersistentSession | app.py:103-119 | with one list kept across inputs: one reply per request, and the list is unchanged when no request is labelled task management |
| Dispatch.PersistentAddThenView | app.py:106-113 | with one list kept across inputs, a view right after an add shows the added task |
| Dispatch.MilkRemembered | app.py:176-183 | with one list kept across inputs, "milk add" then "view" shows "milk" and leaves `["milk"]` |
| Dispatch.SessionKeepsTasksClean | app.py:176-187 | with one list kept across inputs, starting from a clean list, whatever the labels and utterances, every listed task is non-empty with no surrounding whitespace |
| Dispatch.RemovalKeepsClean | app.py:184-187 | removing a task keeps a clean list clean |
| Dispatch.AddWinsOverEverything | app.py:177-179 | an utterance ending in "add" with no other letter "a" adds its stripped words as the task, even "remove" or "view" |
| Dispatch.AddDeletedInsideWords | app.py:177-179 | "add address" adds the task "ress" |
| Dispatch.ViewWinsOverRemove | app.py:177-184 | "remove review" shows the list instead of removing |

## Left out

- `categorize_query` (app.py:10-23): it is a language-model call. The category is an unconstrained string parameter, and so is the `strip()` of the model's answer.
- `get_general_knowledge_response` (app.py:129-140): it is a language-model call, returned as `AskModel(utterance)`.
- The network part of `get_weather` (app.py:39-68) and all of `get_news` (app.py:71-100): these are HTTP requests, float rounding of JSON numbers and exception mapping. They are returned as `WeatherLookup(city)` and `NewsLookup`.
- The Streamlit calls (title, input box, text areas, including the category echo at app.py:151) and the `config` secrets: these are presentation and configuration. Only the reply each branch would display is modelled.
- Unicode semantics of `lower()` and `strip()`: only ASCII letters are lower-cased. Only ASCII whitespace (tab through carriage return, 0x1C-0x1F, space) is stripped.
- Concurrent browser sessions: each session runs the script on its own. The model covers the inputs of one session, one after another.
- Todo.View: the response equals "To-do list is empty." for the empty list, but not only for it. A list holding that single task gives the same text, so the converse does not hold (`Todo.ViewIsAmbiguous`).

## Findings

| source | as written | input that shows it | evidently intended | confidence | as-written member | corrected member |
|---|---|---|---|---|---|---|
| app.py:103 | `to_do_list = []` is module-level code in a Streamlit script. The script runs again from the top for every input, so every request starts from an empty list | "milk add", then "view", both labelled task management: the second reply is "To-do list is empty." | the list is kept across inputs (for instance in `st.session_state`), so the view shows "milk" | not executed; Streamlit's rerun-per-input model makes the reset certain, and the to-do branch's view and remove make sense only with a kept list | Dispatch.MilkForgotten | Dispatch.PersistentAddThenView |
