/** The request method: three recognised verbs and a catch-all. */
module HttpMethod {

  datatype Method = GET | OPTIONS | HEAD | Other(verb: string)

  /** The verbs that have a variant of their own; they are matched case-sensitively. */
  predicate IsKnownVerb(t: string) {
    t == "GET" || t == "OPTIONS" || t == "HEAD"
  }

  /** A method as parsing produces it: a catch-all never carries a recognised verb. */
  predicate Canonical(m: Method) {
    m.Other? ==> !IsKnownVerb(m.verb)
  }

  /**
   * The `Display` text of a method. A method parsing can produce displays
   * as a recognised verb exactly when it is one of the three variants.
   */
  function Show(m: Method): (s: string)
    ensures Canonical(m) ==> (IsKnownVerb(s) <==> !m.Other?)
  {
    match m
    case GET => "GET"
    case OPTIONS => "OPTIONS"
    case HEAD => "HEAD"
    case Other(v) => v
  }

  /** Classifies the first token of the request line. */
  function MethodOf(t: string): (m: Method)
    ensures Show(m) == t
    ensures Canonical(m)
    ensures m.Other? <==> !IsKnownVerb(t)
  {
    match t
    case "GET" => GET
    case "OPTIONS" => OPTIONS
    case "HEAD" => HEAD
    case _ => Other(t)
  }

  /** Displaying then classifying gives back every method parsing can produce. */
  lemma {:induction false} MethodOfShow(m: Method)
    requires Canonical(m)
    ensures MethodOf(Show(m)) == m
  {
  }
}
