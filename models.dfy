/** The snippet record and its construction from keyword arguments. */
module Models {

  datatype Option<+T> = None | Some(value: T) {
    /** The wrapped value, or `default` when there is none. */
    function GetOr(default: T): T {
      match this
      case Some(v) => v
      case None => default
    }
  }

  /** A stored code sample. `id` stays `None` until a caller sets it. */
  datatype Snippet = Snippet(
    id: Option<int>,
    title: string,
    code: string,
    description: Option<string>,
    favourite: bool)

  /**
   * The keyword arguments of a constructor call: `None` means the keyword
   * was not passed. `id` and `description` are themselves optional values,
   * so passing `id=None` is `Some(None)`.
   */
  datatype SnippetArgs = SnippetArgs(
    id: Option<Option<int>>,
    title: Option<string>,
    code: Option<string>,
    description: Option<Option<string>>,
    favourite: Option<bool>)

  /**
   * The error the field declarations call for when a field without a default
   * is left out. This is the declared requirement: a `table=True` SQLModel
   * class does not check it when it builds a record.
   */
  datatype ConstructError = MissingFields(names: seq<string>)

  datatype ConstructResult = Built(snippet: Snippet) | Failed(error: ConstructError)

  /**
   * `Snippet(**kwargs)` as its field declarations specify it: defaults for the
   * optional fields, an error naming the required ones that are missing.
   */
  function Construct(args: SnippetArgs): (r: ConstructResult)
    ensures r.Built? <==> args.title.Some? && args.code.Some?
    ensures r.Failed? ==>
      && ("title" in r.error.names <==> args.title.None?)
      && ("code" in r.error.names <==> args.code.None?)
      && (forall n :: n in r.error.names ==> n == "title" || n == "code")
    ensures r.Built? ==>
      && r.snippet.title == args.title.value
      && r.snippet.code == args.code.value
      && (args.id.Some? ==> r.snippet.id == args.id.value)
      && (args.id.None? ==> r.snippet.id == None)
      && (args.description.Some? ==> r.snippet.description == args.description.value)
      && (args.description.None? ==> r.snippet.description == None)
      && (args.favourite.Some? ==> r.snippet.favourite == args.favourite.value)
      && (args.favourite.None? ==> !r.snippet.favourite)
  {
    if args.title.None? || args.code.None? then
      Failed(MissingFields(
        (if args.title.None? then ["title"] else []) +
        (if args.code.None? then ["code"] else [])))
    else
      Built(Snippet(
        args.id.GetOr(None),
        args.title.value,
        args.code.value,
        args.description.GetOr(None),
        args.favourite.GetOr(false)))
  }

  /** `Snippet.alternate_constructor(**kwargs)`, which forwards to the constructor. */
  function AlternateConstructor(args: SnippetArgs): (r: ConstructResult)
    ensures r == Construct(args)
  {
    Construct(args)
  }

  /** The keyword arguments that name every field of `s`. */
  function ArgsOf(s: Snippet): SnippetArgs {
    SnippetArgs(Some(s.id), Some(s.title), Some(s.code), Some(s.description), Some(s.favourite))
  }

  /** Passing every field explicitly rebuilds the same record. */
  lemma ConstructRoundTrip(s: Snippet)
    ensures Construct(ArgsOf(s)) == Built(s)
  {
  }

  /** Passing only `title` and `code` gives the defaults: no id, no description, not a favourite. */
  lemma ConstructDefaults(title: string, code: string)
    ensures Construct(SnippetArgs(None, Some(title), Some(code), None, None))
            == Built(Snippet(None, title, code, None, false))
  {
  }
}
