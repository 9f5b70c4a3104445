/** The voice assistant page: the events it declares to the embedded agent,
    the route each event it receives leads to, and the guard that opens the
    embed only when an embed id is configured. */
module AiAssistant {
  import opened Wrappers

  /** A declared event: its name, when the agent should send it, and the one
      data member it carries (name, type and description). */
  datatype EventDecl = EventDecl(name: string, when: string, field: string, fieldType: string, description: string)

  const Events: seq<EventDecl> := [
    EventDecl("generate-quiz", "The user wants to generate a quiz on a specific topic",
      "topic", "string", "The topic to generate a quiz about"),
    EventDecl("create-podcast", "The user wants to create a podcast from study materials",
      "topic", "string", "The topic or subject of the podcast"),
    EventDecl("show-section", "The user wants to see a specific section",
      "section", "string", "The section to show (quiz/podcast)")
  ]

  /** An event as the embed delivers it: its name and its data object
      (`None` when the event carries none). */
  datatype Event = Event(name: string, data: Option<map<string, string>>)

  /** What `onEvent` does: nothing, a `router.push`, or a thrown
      `TypeError` (reading `section` of a missing data object). */
  datatype Navigation = NoNavigation | Navigate(route: string) | Fails

  /** A template literal renders a missing member as `undefined`. */
  function MemberText(data: map<string, string>, key: string): string {
    if key in data then data[key] else "undefined"
  }

  /** `onEvent`: the switch on the event's name. */
  function OnEvent(e: Event): (r: Navigation)
    ensures r.Navigate? ==> |r.route| >= 1 && r.route[0] == '/'
  {
    match e.name
    case "generate-quiz" => Navigate("/quiz/new")
    case "create-podcast" => Navigate("/podcast")
    case "show-section" =>
      if e.data.None? then Fails else Navigate("/" + MemberText(e.data.value, "section"))
    case _ => NoNavigation
  }

  /** The names the page declares to the agent: the three routes the switch
      in `onEvent` knows. */
  function EventNames(): (names: set<string>)
    ensures names == {"generate-quiz", "create-podcast", "show-section"}
  {
    assert Events[0].name == "generate-quiz";
    assert Events[1].name == "create-podcast";
    assert Events[2].name == "show-section";
    set i | 0 <= i < |Events| :: Events[i].name
  }

  /** The two fixed routes, whatever data comes with the event. */
  lemma FixedRoutes(data: Option<map<string, string>>)
    ensures OnEvent(Event("generate-quiz", data)) == Navigate("/quiz/new")
    ensures OnEvent(Event("create-podcast", data)) == Navigate("/podcast")
  {
  }

  /** `show-section` goes to `/` followed by the section exactly as sent:
      nothing checks that it names a real section. */
  lemma ShowSectionIsNotValidated(data: map<string, string>, section: string)
    requires "section" in data && data["section"] == section
    ensures OnEvent(Event("show-section", Some(data))) == Navigate("/" + section)
    ensures OnEvent(Event("show-section", Some(data))).route[1..] == section
  {
  }

  /** An event leads somewhere exactly when its name is declared (and, for
      `show-section`, it carries a data object); every other name is
      ignored. */
  lemma NavigatesIffDeclared(e: Event)
    ensures OnEvent(e).Navigate? <==> e.name in EventNames() && (e.name == "show-section" ==> e.data.Some?)
    ensures e.name !in EventNames() ==> OnEvent(e) == NoNavigation
  {
  }

  /** Every declared event, sent with the data member it declares, has a
      route. */
  lemma EveryDeclaredEventHasARoute(i: nat, value: string)
    requires i < |Events|
    ensures OnEvent(Event(Events[i].name, Some(map[Events[i].field := value]))).Navigate?
  {
    NavigatesIffDeclared(Event(Events[i].name, Some(map[Events[i].field := value])));
  }

  /** `process.env.NEXT_PUBLIC_PLAY_AI_WEB_EMBED_ID || ""`. */
  function EmbedId(env: Option<string>): string {
    if env.Some? && env.value != "" then env.value else ""
  }

  /** The effect's guard: the embed is opened only with a non-empty id. */
  function OpensEmbed(env: Option<string>): (opens: bool)
    ensures opens <==> env.Some? && env.value != ""
    ensures opens ==> EmbedId(env) == env.value
  {
    EmbedId(env) != ""
  }
}
