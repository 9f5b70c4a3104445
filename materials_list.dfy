/** The sidebar list of saved materials: clicking one sends the user to the
    generator of the section they are in. */
module MaterialsList {
  import opened Wrappers

  /** A listed material: the columns the sidebar selects. */
  datatype ListedMaterial = ListedMaterial(id: string, name: string, url: string)

  /** `s.startsWith(prefix)`. */
  predicate StartsWith(s: string, prefix: string) {
    prefix <= s
  }

  /** `handleMaterialClick`: the route pushed, if any, for the current
      pathname. */
  function MaterialClickRoute(pathname: string, material: ListedMaterial): (r: Option<string>)
    ensures r == Some("/quiz/new") <==> StartsWith(pathname, "/quiz")
    ensures r == Some("/podcast") <==> !StartsWith(pathname, "/quiz") && StartsWith(pathname, "/podcast")
    ensures r.None? <==> !StartsWith(pathname, "/quiz") && !StartsWith(pathname, "/podcast")
  {
    if StartsWith(pathname, "/quiz") then Some("/quiz/new")
    else if StartsWith(pathname, "/podcast") then Some("/podcast")
    else None
  }

  /** The route depends on the pathname only, not on the material clicked. */
  lemma RouteIgnoresMaterial(pathname: string, a: ListedMaterial, b: ListedMaterial)
    ensures MaterialClickRoute(pathname, a) == MaterialClickRoute(pathname, b)
  {
  }

  /** The test is a plain prefix test: any pathname that begins with the
      five characters `/quiz`, such as `/quizzes`, leads to the quiz
      generator, while one that only contains them does not. */
  lemma PrefixNotSegment(rest: string, material: ListedMaterial)
    ensures MaterialClickRoute("/quiz" + rest, material) == Some("/quiz/new")
    ensures MaterialClickRoute("/quizzes", material) == Some("/quiz/new")
    ensures MaterialClickRoute("/my/quiz", material) == None
  {
    assert StartsWith("/quiz" + rest, "/quiz");
    assert "/quizzes" == "/quiz" + "zes";
    assert "/my/quiz"[1] != "/quiz"[1] && "/my/quiz"[1] != "/podcast"[1];
  }
}
