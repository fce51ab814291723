/** One request cycle of the chatbot after classification: the category label
    (whatever string the classifier returned) picks a branch by exact equality,
    the branch pulls its argument out of the utterance by deleting literal
    keywords and cutting surrounding whitespace, and calls one handler. Calls
    that leave the process (the weather and news providers, the completion
    service) are returned as requests instead of being performed. */
module Dispatch {
  import opened Wrappers
  import opened PyStr
  import Todo
  import Handlers

  const Reminders: string := "reminders"
  const Scheduling: string := "scheduling"
  const InformationRetrieval: string := "information retrieval"
  const TaskManagement: string := "task management"
  const GeneralAssistance: string := "general assistance"
  const GeneralKnowledge: string := "general knowledge"

  /** The six labels the dispatcher has a branch for. */
  const Labels: set<string> :=
    {Reminders, Scheduling, InformationRetrieval, TaskManagement, GeneralAssistance, GeneralKnowledge}

  /** The six labels are pairwise different (they differ in length). */
  lemma LabelsDistinct()
    ensures |Reminders| == 9 && |Scheduling| == 10 && |InformationRetrieval| == 21
    ensures |TaskManagement| == 15 && |GeneralAssistance| == 18 && |GeneralKnowledge| == 17
  {
  }

  const CantHelpMessage: string := "Sorry, I can't help with that."
  const AssistFurtherMessage: string := "How can I assist you further?"

  /** What a request cycle ends in. */
  datatype Reply =
    | Show(text: string)          // a response computed here, shown as is
    | WeatherLookup(city: string) // the provider query of `get_weather` for `city`
    | NewsLookup                  // `get_news()`
    | AskModel(question: string)  // `get_general_knowledge_response(question)`
    | Silent                      // no response is shown

  /** The reply and the to-do list after the cycle. */
  datatype Turn = Turn(reply: Reply, tasks: Todo.TaskList)

  /** Every task is non-empty and has no surrounding whitespace. */
  predicate CleanTasks(tasks: Todo.TaskList) {
    forall k :: 0 <= k < |tasks| ==> tasks[k] != [] && !IsSpace(tasks[k][0]) && !IsSpace(tasks[k][|tasks[k]| - 1])
  }

  /** `text.replace(keyword, "").strip()`: what is left of the utterance once every
      occurrence of the keyword is deleted and the surrounding whitespace is cut
      off. It has no surrounding whitespace, is shorter than the utterance by at
      least the deleted occurrences, holds no character the utterance lacks, and a
      one-character keyword is gone from it. */
  function Argument(text: string, keyword: string): (a: string)
    ensures a == [] || (!IsSpace(a[0]) && !IsSpace(a[|a| - 1]))
    ensures |keyword| > 0 ==> |a| + |keyword| * Count(text, keyword) <= |text|
    ensures |keyword| == 1 ==> keyword[0] !in a
    ensures forall c :: c in a ==> c in text
  {
    var removed := RemoveAll(text, keyword);
    ArgumentFacts(removed, text, keyword);
    Strip(removed)
  }

  /** The facts behind `Argument`'s contract. */
  lemma ArgumentFacts(removed: string, text: string, keyword: string)
    requires removed == RemoveAll(text, keyword)
    ensures var a := Strip(removed);
            && (a == [] || (!IsSpace(a[0]) && !IsSpace(a[|a| - 1])))
            && (|keyword| > 0 ==> |a| + |keyword| * Count(text, keyword) <= |text|)
            && (|keyword| == 1 ==> keyword[0] !in a)
            && (forall c :: c in a ==> c in text)
  {
    StripEmptyIff(removed);
    StripIsPiece(removed);
    if |keyword| > 0 {
      RemoveAllLength(text, keyword);
    }
    if |keyword| == 1 {
      RemoveSingleCharComplete(text, keyword);
      assert keyword == [keyword[0]];
      ContainsChar(Strip(removed), keyword[0]);
    }
  }

  /** A city as the weather provider is asked for it: non-empty, without
      surrounding whitespace, upper-case letters or "?". */
  predicate CleanCity(city: string) {
    && city != []
    && !IsSpace(city[0]) && !IsSpace(city[|city| - 1])
    && forall c :: c in city ==> !IsUpper(c) && c != '?'
  }

  /** The city argument of the weather branch: the lower-cased utterance with the
      phrasings "what's the weather like in", "weather in", "what is" and every
      "?" deleted, in that order, then stripped. */
  function CityArgument(utterance: string): (city: string)
    ensures city == [] || (!IsSpace(city[0]) && !IsSpace(city[|city| - 1]))
    ensures forall c :: c in city ==> !IsUpper(c) && c != '?'
  {
    var lowered := Lower(utterance);
    var c := RemoveAll(RemoveAll(RemoveAll(lowered, "what's the weather like in"), "weather in"), "what is");
    RemovalsKeepCharacters(lowered, "what's the weather like in", "weather in", "what is");
    Argument(c, "?")
  }

  /** Three deletions in a row introduce no new character. */
  lemma RemovalsKeepCharacters(s: string, p1: string, p2: string, p3: string)
    ensures forall x :: x in RemoveAll(RemoveAll(RemoveAll(s, p1), p2), p3) ==> x in s
  {
  }

  /** The information-retrieval branch: "weather" anywhere in the lower-cased
      utterance goes to the weather handler with the city argument (refused when
      blank); otherwise "news" goes to the news handler; otherwise a fixed
      apology. */
  function RetrieveInformation(utterance: string): (r: Reply)
    ensures Contains(Lower(utterance), "weather") ==>
              (r.Show? <==> CityArgument(utterance) == []) &&
              (r.Show? ==> r.text == Handlers.EmptyCityMessage) &&
              (r.WeatherLookup? ==> r.city == CityArgument(utterance))
    ensures r.WeatherLookup? ==> r.city == CityArgument(utterance) && CleanCity(r.city)
    ensures r.NewsLookup? <==> !Contains(Lower(utterance), "weather") && Contains(Lower(utterance), "news")
    ensures !Contains(Lower(utterance), "weather") && !Contains(Lower(utterance), "news") ==> r == Show(CantHelpMessage)
    ensures r.Show? || r.WeatherLookup? || r.NewsLookup?
  {
    if Contains(Lower(utterance), "weather") then
      var city := CityArgument(utterance);
      Handlers.GetWeatherOfStripped(city);
      assert city != [] ==> CleanCity(city);
      match Handlers.GetWeather(city)
      case Refused(message) => Show(message)
      case Lookup(c) => WeatherLookup(c)
    else if Contains(Lower(utterance), "news") then NewsLookup
    else Show(CantHelpMessage)
  }

  /** The task-management branch. The keywords are tested in the order "add",
      "view", "remove", each anywhere in the utterance, and the first present one
      wins. The task passed on is the utterance with every occurrence of that
      keyword deleted and stripped. With none of the three there is no reply and
      the list is left alone. */
  function ManageTasks(utterance: string, tasks: Todo.TaskList): (r: Turn)
    ensures Contains(utterance, "add") ==>
              var t := Argument(utterance, "add");
              && (t != [] ==> r == Turn(Show(Todo.AddedPrefix + t), tasks + [t]))
              && (t == [] ==> r == Turn(Show(Todo.NoTaskMessage), tasks))
    ensures !Contains(utterance, "add") && Contains(utterance, "view") ==>
              r == Turn(Show(Todo.View(tasks)), tasks)
    ensures !Contains(utterance, "add") && !Contains(utterance, "view") && Contains(utterance, "remove") ==>
              var t := Argument(utterance, "remove");
              && (t in tasks ==> r == Turn(Show(Todo.RemovedPrefix + t), Todo.RemoveFirst(tasks, t)))
              && (t !in tasks ==> r == Turn(Show(Todo.NotFoundMessage), tasks))
    ensures r.reply.Silent? <==>
              !Contains(utterance, "add") && !Contains(utterance, "view") && !Contains(utterance, "remove")
    ensures r.reply.Silent? ==> r.tasks == tasks
    ensures r.reply.Show? || r.reply.Silent?
    ensures CleanTasks(tasks) ==> CleanTasks(r.tasks)
  {
    if Contains(utterance, "add") then
      var t := Argument(utterance, "add");
      assert Todo.Manage("add", Some(t), tasks) == Todo.Add(tasks, Some(t));
      Shown(Todo.Manage("add", Some(t), tasks))
    else if Contains(utterance, "view") then
      Shown(Todo.Manage("view", None, tasks))
    else if Contains(utterance, "remove") then
      var t := Argument(utterance, "remove");
      RemovalKeepsClean(tasks, t);
      assert Todo.Manage("remove", Some(t), tasks) == Todo.Remove(tasks, Some(t));
      Shown(Todo.Manage("remove", Some(t), tasks))
    else Turn(Silent, tasks)
  }

  /** The to-do manager's answer as the dispatcher shows it. */
  function Shown(step: Todo.Step): (r: Turn)
    ensures r.reply.Show? || r.reply.Silent?
    ensures r.tasks == step.tasks
  {
    match step.response
    case Some(text) => Turn(Show(text), step.tasks)
    case None => Turn(Silent, step.tasks)
  }

  /** Removing a task keeps a clean list clean. */
  lemma RemovalKeepsClean(tasks: Todo.TaskList, t: string)
    ensures CleanTasks(tasks) && t in tasks ==> CleanTasks(Todo.RemoveFirst(tasks, t))
  {
    if t in tasks {
      var r := Todo.RemoveFirst(tasks, t);
      var i := Todo.IndexOf(tasks, t);
      assert forall k :: 0 <= k < |r| ==> r[k] == tasks[if k < i then k else k + 1];
    }
  }

  /** The general-assistance branch: with "recommend" in the utterance, the rest
      of the utterance is the recommendation key; without it, a fixed prompt. The
      restaurant list is shown exactly when the key is "restaurants". */
  function Assist(utterance: string): (r: Reply)
    ensures r.Show?
    ensures !Contains(utterance, "recommend") ==> r.text == AssistFurtherMessage
    ensures Contains(utterance, "recommend") ==>
              (r.text == Handlers.RestaurantsText <==> Argument(utterance, "recommend") == Handlers.RestaurantsKey)
    ensures Contains(utterance, "recommend") && Argument(utterance, "recommend") != Handlers.RestaurantsKey ==>
              r.text == Handlers.NoRecommendations
  {
    if Contains(utterance, "recommend") then
      Show(Handlers.GetRecommendations(Argument(utterance, "recommend")))
    else Show(AssistFurtherMessage)
  }

  /** One request cycle: an empty utterance is ignored; otherwise the category
      label picks the branch by exact equality. A label outside the six gets no
      reply, and only task management can change the to-do list. */
  function Respond(category: string, utterance: string, tasks: Todo.TaskList): (r: Turn)
    ensures r.reply.Silent? <==>
              || |utterance| == 0
              || category !in Labels
              || (category == TaskManagement
                  && !Contains(utterance, "add") && !Contains(utterance, "view") && !Contains(utterance, "remove"))
    ensures category != TaskManagement || |utterance| == 0 ==> r.tasks == tasks
    ensures r.reply.AskModel? <==> |utterance| > 0 && category == GeneralKnowledge
    ensures r.reply.AskModel? ==> r.reply.question == utterance
    ensures r.reply.WeatherLookup? ==> category == InformationRetrieval && CleanCity(r.reply.city)
    ensures r.reply.NewsLookup? <==>
              |utterance| > 0 && category == InformationRetrieval
              && !Contains(Lower(utterance), "weather") && Contains(Lower(utterance), "news")
    ensures |utterance| > 0 && category == Reminders ==>
              r.reply == Show(Handlers.SetReminder(Argument(utterance, "remind me to")))
    ensures |utterance| > 0 && category == Scheduling ==>
              r.reply == Show(Handlers.ScheduleEvent(Argument(utterance, "schedule")))
    ensures CleanTasks(tasks) ==> CleanTasks(r.tasks)
    ensures |utterance| > 0 && category == TaskManagement ==> r == ManageTasks(utterance, tasks)
    ensures |utterance| > 0 && category == InformationRetrieval ==> r.reply == RetrieveInformation(utterance)
    ensures |utterance| > 0 && category == GeneralAssistance ==> r.reply == Assist(utterance)
  {
    LabelsDistinct();
    if |utterance| == 0 then Turn(Silent, tasks)
    else if category == TaskManagement then ManageTasks(utterance, tasks)
    else Turn(OtherBranch(category, utterance), tasks)
  }

  /** The branches other than task management, in the order the dispatcher tests
      them. The six labels are distinct, so taking task management out of the
      chain first picks the same branch. None of these touches the list. */
  function OtherBranch(category: string, utterance: string): (r: Reply)
    requires category != TaskManagement
    ensures r.Silent? <==> category !in Labels
    ensures r.AskModel? <==> category == GeneralKnowledge
    ensures r.AskModel? ==> r.question == utterance
    ensures r.WeatherLookup? ==> category == InformationRetrieval && CleanCity(r.city)
    ensures r.NewsLookup? <==>
              category == InformationRetrieval
              && !Contains(Lower(utterance), "weather") && Contains(Lower(utterance), "news")
    ensures category == Reminders ==> r == Show(Handlers.SetReminder(Argument(utterance, "remind me to")))
    ensures category == Scheduling ==> r == Show(Handlers.ScheduleEvent(Argument(utterance, "schedule")))
    ensures category == InformationRetrieval ==> r == RetrieveInformation(utterance)
    ensures category == GeneralAssistance ==> r == Assist(utterance)
  {
    LabelsDistinct();
    if category == Reminders then Show(Handlers.SetReminder(Argument(utterance, "remind me to")))
    else if category == Scheduling then Show(Handlers.ScheduleEvent(Argument(utterance, "schedule")))
    else if category == InformationRetrieval then RetrieveInformation(utterance)
    else if category == GeneralAssistance then Assist(utterance)
    else if category == GeneralKnowledge then AskModel(utterance)
    else Silent
  }

  /** A request as the dispatcher sees it: the classifier's label and the
      utterance. */
  datatype Request = Request(category: string, utterance: string)

  /** One run of the script for one submitted input. Streamlit executes the
      script from the top for every input, so the module-level list is bound
      afresh to `[]` before the request is dispatched. When the run ends, at most
      the one task just added is listed. */
  function Cycle(req: Request): (r: Turn)
    ensures |r.tasks| <= 1 && CleanTasks(r.tasks)
    ensures r.tasks != [] <==>
              && req.utterance != [] && req.category == TaskManagement
              && Contains(req.utterance, "add") && Argument(req.utterance, "add") != []
  {
    Respond(req.category, req.utterance, [])
  }

  /** Successive inputs as the script handles them, each in a run of its own:
      every reply is the reply its own request gets from an empty list, whatever
      came before it. */
  function Session(requests: seq<Request>): (r: seq<Reply>)
    ensures |r| == |requests|
    ensures forall k :: 0 <= k < |r| ==> r[k] == Respond(requests[k].category, requests[k].utterance, []).reply
    decreases |requests|
  {
    if |requests| == 0 then []
    else [Cycle(requests[0]).reply] + Session(requests[1..])
  }

  /** A task request to view the list (without "add") always shows
      "To-do list is empty.", whatever was added before. */
  lemma ViewAlwaysEmpty(requests: seq<Request>, k: int)
    requires 0 <= k < |requests| && requests[k].category == TaskManagement
    requires !Contains(requests[k].utterance, "add") && Contains(requests[k].utterance, "view")
    ensures Session(requests)[k] == Show(Todo.EmptyListMessage)
  {
    ViewFromEmpty(requests[k].utterance);
  }

  /** Viewing from the freshly bound list shows the empty-list message. */
  lemma ViewFromEmpty(u: string)
    requires !Contains(u, "add") && Contains(u, "view")
    ensures Respond(TaskManagement, u, []).reply == Show(Todo.EmptyListMessage)
  {
    assert u != [];
    assert ManageTasks(u, []) == Turn(Show(Todo.View([])), []);
  }

  /** A task request to remove (without "add" or "view") always answers
      "Task not found.", whatever was added before. */
  lemma RemoveNeverFinds(requests: seq<Request>, k: int)
    requires 0 <= k < |requests| && requests[k].category == TaskManagement
    requires !Contains(requests[k].utterance, "add") && !Contains(requests[k].utterance, "view")
    requires Contains(requests[k].utterance, "remove")
    ensures Session(requests)[k] == Show(Todo.NotFoundMessage)
  {
    RemoveFromEmpty(requests[k].utterance);
  }

  /** Removing from the freshly bound list finds nothing. */
  lemma RemoveFromEmpty(u: string)
    requires !Contains(u, "add") && !Contains(u, "view") && Contains(u, "remove")
    ensures Respond(TaskManagement, u, []).reply == Show(Todo.NotFoundMessage)
  {
    assert u != [];
    var t := Argument(u, "remove");
    assert t !in [];
    assert ManageTasks(u, []) == Turn(Show(Todo.NotFoundMessage), []);
  }

  /** "milk add" then "view": the task is confirmed, and the view that follows
      shows the empty list. */
  lemma MilkForgotten()
    ensures Session([Request(TaskManagement, "milk add"), Request(TaskManagement, "view")]) ==
              [Show(Todo.AddedPrefix + "milk"), Show(Todo.EmptyListMessage)]
  {
    MilkAdded([]);
    ViewWord();
    ViewAlwaysEmpty([Request(TaskManagement, "milk add"), Request(TaskManagement, "view")], 1);
  }

  /** "milk add" adds the task "milk". */
  lemma MilkAdded(tasks: Todo.TaskList)
    ensures Respond(TaskManagement, "milk add", tasks) == Turn(Show(Todo.AddedPrefix + "milk"), tasks + ["milk"])
  {
    var words := "milk ";
    assert words + "add" == "milk add";
    MilkWords();
    AddWinsOverEverything(words, tasks);
  }

  /** The words "milk " hold no letter "a", and `strip()` cuts off the trailing
      blank. */
  lemma MilkWords()
    ensures 'a' !in "milk " && Strip("milk ") == "milk"
  {
    var t := "milk ";
    assert t[0] == 'm' && t[1] == 'i' && t[2] == 'l' && t[3] == 'k' && t[4] == ' ';
    assert TrimmedAt(t, 0, 4);
    StripIsTrimmed(t, 0, 4);
    assert t[0..4] == "milk";
  }

  /** The utterance "view" says "view" and not "add". */
  lemma ViewWord()
    ensures Contains("view", "view") && !Contains("view", "add")
  {
    var v := "view";
    assert IsPrefix("view", v);
    assert v[0] == 'v' && v[1] == 'i' && v[2] == 'e' && v[3] == 'w';
    ContainsNeedsFirstChar(v, "add");
  }

  /** The behaviour the to-do branch evidently intends: one list shared by all
      inputs (as `st.session_state` would keep it), each cycle starting from the
      list the previous one left. Only task requests change the list. */
  function PersistentSession(requests: seq<Request>, tasks: Todo.TaskList): (r: (seq<Reply>, Todo.TaskList))
    ensures |r.0| == |requests|
    ensures (forall k :: 0 <= k < |requests| ==> requests[k].category != TaskManagement) ==> r.1 == tasks
    decreases |requests|
  {
    if |requests| == 0 then ([], tasks)
    else
      var turn := Respond(requests[0].category, requests[0].utterance, tasks);
      var rest := PersistentSession(requests[1..], turn.tasks);
      ([turn.reply] + rest.0, rest.1)
  }

  /** With a shared list, whatever the labels and utterances, every listed task
      stays non-empty and without surrounding whitespace. */
  lemma {:induction false} SessionKeepsTasksClean(requests: seq<Request>, tasks: Todo.TaskList)
    requires CleanTasks(tasks)
    ensures CleanTasks(PersistentSession(requests, tasks).1)
    decreases |requests|
  {
    if |requests| > 0 {
      var turn := Respond(requests[0].category, requests[0].utterance, tasks);
      SessionKeepsTasksClean(requests[1..], turn.tasks);
    }
  }

  /** With a shared list, a view right after an add shows the added task. */
  lemma PersistentAddThenView(add: string, view: string, tasks: Todo.TaskList)
    requires Contains(add, "add") && Argument(add, "add") != []
    requires !Contains(view, "add") && Contains(view, "view")
    ensures var r := PersistentSession([Request(TaskManagement, add), Request(TaskManagement, view)], tasks);
            r.0[1].Show? && Contains(r.0[1].text, Argument(add, "add"))
  {
    var t := Argument(add, "add");
    var added := tasks + [t];
    assert Respond(TaskManagement, add, tasks).tasks == added;
    PersistentTwo(Request(TaskManagement, add), Request(TaskManagement, view), tasks);
    Todo.AddThenViewShowsTask(tasks, t);
    assert Todo.Add(tasks, Some(t)).tasks == added;
  }

  /** "milk add" then "view" with a shared list: the view shows "milk". */
  lemma MilkRemembered()
    ensures PersistentSession([Request(TaskManagement, "milk add"), Request(TaskManagement, "view")], []) ==
              ([Show(Todo.AddedPrefix + "milk"), Show("milk")], ["milk"])
  {
    MilkAdded([]);
    assert [] + ["milk"] == ["milk"];
    MilkViewed();
    PersistentTwo(Request(TaskManagement, "milk add"), Request(TaskManagement, "view"), []);
  }

  /** Two cycles on a shared list: the second starts from the list the first
      left. */
  lemma PersistentTwo(first: Request, second: Request, tasks: Todo.TaskList)
    ensures var t1 := Respond(first.category, first.utterance, tasks);
            var t2 := Respond(second.category, second.utterance, t1.tasks);
            PersistentSession([first, second], tasks) == ([t1.reply, t2.reply], t2.tasks)
  {
    var t1 := Respond(first.category, first.utterance, tasks);
    var t2 := Respond(second.category, second.utterance, t1.tasks);
    var empty: seq<Request> := [];
    assert PersistentSession(empty, t2.tasks) == ([], t2.tasks);
    assert [second][1..] == empty;
    assert PersistentSession([second], t1.tasks) == ([t2.reply] + [], t2.tasks);
    assert [t2.reply] + [] == [t2.reply];
    assert [first, second][1..] == [second];
    assert PersistentSession([first, second], tasks) == ([t1.reply] + [t2.reply], t2.tasks);
    assert [t1.reply] + [t2.reply] == [t1.reply, t2.reply];
  }

  /** Viewing the list ["milk"] shows "milk". */
  lemma MilkViewed()
    ensures Respond(TaskManagement, "view", ["milk"]) == Turn(Show("milk"), ["milk"])
  {
    ViewWord();
    assert Todo.View(["milk"]) == "milk";
  }

  /** Deleting "add" from an utterance that ends in "add" and has no other
      letter "a" leaves the rest of the utterance. */
  lemma TrailingAddRemoved(words: string)
    requires 'a' !in words
    ensures RemoveAll(words + "add", "add") == words
  {
    RemoveAllKeepsFreeStretch(words, "add", "add");
    assert RemoveAll("add", "add") == [];
  }

  /** "add" wins whatever else the utterance says: when the words before a final
      "add" hold no letter "a", those words (stripped) are added as the task, even
      if they read "remove" or "view": "remove add" adds the task "remove". */
  lemma AddWinsOverEverything(words: string, tasks: Todo.TaskList)
    requires 'a' !in words && Strip(words) != []
    ensures Respond(TaskManagement, words + "add", tasks) ==
              Turn(Show(Todo.AddedPrefix + Strip(words)), tasks + [Strip(words)])
  {
    TrailingAddRemoved(words);
    assert words + "add" == words + "add" + [];
    ContainsSegment(words, "add", []);
  }

  /** Deleting "add" from "add address" removes both occurrences. */
  lemma AddressRemoved()
    ensures RemoveAll("add address", "add") == " ress"
  {
    var k, tail := "add", "ress";
    var second := k + tail;
    var afterFirst := " " + second;
    assert "add address" == k + afterFirst;
    RemoveAllLeading(afterFirst, k);
    assert k[0] == 'a';
    assert k[0] !in " ";
    RemoveAllKeepsFreeStretch(" ", second, k);
    RemoveAllLeading(tail, k);
    RessKept();
  }

  /** "ress" has no letter "a", so deleting "add" keeps it. */
  lemma RessKept()
    ensures RemoveAll("ress", "add") == "ress"
  {
    var tail, k := "ress", "add";
    assert tail[0] == 'r' && tail[1] == 'e' && tail[2] == 's' && tail[3] == 's';
    assert k[0] == 'a';
    ContainsNeedsFirstChar(tail, k);
    RemoveAllIdentityIff(tail, k);
  }

  /** The task argument of "add address"; the literals are parameters so that
      the proof works on their parts rather than on the whole string. */
  lemma AddressArgument(u: string, k: string, tail: string)
    requires u == "add address" && k == "add" && tail == "ress"
    ensures Contains(u, k)
    ensures Argument(u, k) == tail
  {
    AddressShape(u, k, tail);
    ContainsSegment([], k, " " + k + tail);
    AddressRemoved();
    StripLeadingBlank();
  }

  /** "add address" is "add", a blank, "add" and "ress". */
  lemma AddressShape(u: string, k: string, tail: string)
    requires u == "add address" && k == "add" && tail == "ress"
    ensures u == k + " " + k + tail && u == [] + k + (" " + k + tail)
  {
  }

  /** A single leading blank before a word is cut off by `strip()`. */
  lemma StripLeadingBlank()
    ensures Strip(" ress") == "ress"
  {
    var t := " ress";
    assert t[0] == ' ' && t[1] == 'r' && t[4] == 's';
    assert TrimmedAt(t, 1, 5);
    StripIsTrimmed(t, 1, 5);
    assert t[1..5] == "ress";
  }

  /** Every "add" is deleted, inside words too: "add address" adds the task
      "ress". */
  lemma AddDeletedInsideWords()
    ensures Respond(TaskManagement, "add address", []) == Turn(Show(Todo.AddedPrefix + "ress"), ["ress"])
  {
    AddressArgument("add address", "add", "ress");
    assert [] + ["ress"] == ["ress"];
  }

  /** "view" is tested before "remove": "remove review" shows the list instead of
      removing anything. */
  lemma ViewWinsOverRemove(tasks: Todo.TaskList)
    ensures Respond(TaskManagement, "remove review", tasks) == Turn(Show(Todo.View(tasks)), tasks)
  {
    RemoveReviewWords("remove review", "add", "view");
  }

  /** "remove review" has no letter "a", so no "add", and ends in "view"; the
      literals are parameters, as for `AddressArgument`. */
  lemma RemoveReviewWords(u: string, a: string, v: string)
    requires u == "remove review" && a == "add" && v == "view"
    ensures !Contains(u, a) && Contains(u, v)
  {
    assert u[0] == 'r' && u[1] == 'e' && u[2] == 'm' && u[3] == 'o' && u[4] == 'v' && u[5] == 'e';
    assert u[6] == ' ' && u[7] == 'r' && u[8] == 'e' && u[9] == 'v' && u[10] == 'i' && u[11] == 'e' && u[12] == 'w';
    assert a[0] == 'a';
    ContainsNeedsFirstChar(u, a);
    assert u == u[..9] + v + [];
    ContainsSegment(u[..9], v, []);
  }
}
