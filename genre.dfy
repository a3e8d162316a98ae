/** The fifteen book genres of `Genre.java`, and `Genre.valueOf`. */
module Genres {
  import opened Errors

  datatype Genre =
    | Fiction | NonFiction | Mystery | Fantasy | ScienceFiction
    | Biography | History | Romance | Horror | Thriller
    | SelfHelp | Poetry | Children | Educational | Business

  /** The Java constant's name, `Genre.name()`. */
  function Name(g: Genre): string {
    match g
    case Fiction => "FICTION"
    case NonFiction => "NON_FICTION"
    case Mystery => "MYSTERY"
    case Fantasy => "FANTASY"
    case ScienceFiction => "SCIENCE_FICTION"
    case Biography => "BIOGRAPHY"
    case History => "HISTORY"
    case Romance => "ROMANCE"
    case Horror => "HORROR"
    case Thriller => "THRILLER"
    case SelfHelp => "SELF_HELP"
    case Poetry => "POETRY"
    case Children => "CHILDREN"
    case Educational => "EDUCATIONAL"
    case Business => "BUSINESS"
  }

  /** `Genre.valueOf`: the constant whose name is exactly `s`; `None` stands
      for the `IllegalArgumentException` it throws when there is none. */
  function ValueOf(s: string): (r: Option<Genre>)
    ensures r.Some? ==> Name(r.value) == s
    ensures r.None? <==> forall g :: Name(g) != s
  {
    if s == "FICTION" then Some(Fiction)
    else if s == "NON_FICTION" then Some(NonFiction)
    else if s == "MYSTERY" then Some(Mystery)
    else if s == "FANTASY" then Some(Fantasy)
    else if s == "SCIENCE_FICTION" then Some(ScienceFiction)
    else if s == "BIOGRAPHY" then Some(Biography)
    else if s == "HISTORY" then Some(History)
    else if s == "ROMANCE" then Some(Romance)
    else if s == "HORROR" then Some(Horror)
    else if s == "THRILLER" then Some(Thriller)
    else if s == "SELF_HELP" then Some(SelfHelp)
    else if s == "POETRY" then Some(Poetry)
    else if s == "CHILDREN" then Some(Children)
    else if s == "EDUCATIONAL" then Some(Educational)
    else if s == "BUSINESS" then Some(Business)
    else None
  }

  /** `valueOf` inverts `name`: every constant is found by its own name. */
  lemma ValueOfName(g: Genre)
    ensures ValueOf(Name(g)) == Some(g)
  {
  }
}
