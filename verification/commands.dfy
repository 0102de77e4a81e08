/** The pure part of the `add` and `update` command handlers of src/main.py:
    how the tokens of `parse_args` become the arguments of the service call,
    and the command's effect on the store. Printing is left out; what would
    be printed is the outcome. */
module Commands {
  import opened Results
  import opened Text
  import opened TaskModel
  import opened TaskStore
  import opened ArgParser

  /** Why a command handler refused. */
  datatype CommandError =
    | TitleMissing             // the first `add` token is empty
    | TooFewArgs               // fewer than two `update` tokens
    | IdNotNumber              // `int()` of the id token raised ValueError
    | Service(e: ServiceError) // the service raised

  /** The store after a command, and the task it reports or why it refused. */
  datatype Response = Response(store: Store, outcome: Result<Task, CommandError>)

  /** The arguments `handle_add` passes to `add_task`. */
  datatype AddRequest = AddRequest(title: string, description: string)

  /** The arguments `handle_update` passes to `update_task`. */
  datatype UpdateRequest = UpdateRequest(id: int, title: Option<string>, description: Option<string>)

  /** The `i`-th token of `toks`, or "" past its end, as after padding. */
  function TokenOr(toks: seq<string>, i: nat): string {
    if i < |toks| then toks[i] else ""
  }

  /** `handle_add` up to the service call: tokens padded to two; an empty
      first token is refused; the description is the second token. */
  function AddArguments(argsStr: string): (r: Result<AddRequest, CommandError>)
    ensures r.Failure? <==> TokenOr(Tokenize(argsStr), 0) == []
    ensures r.Failure? ==> r.error == TitleMissing
    ensures r.Success? ==>
      && r.value.title == Tokenize(argsStr)[0]
      && r.value.description == TokenOr(Tokenize(argsStr), 1)
  {
    var args := ParseArgs(argsStr, Some(2));
    if |args| == 0 || args[0] == [] then
      Failure(TitleMissing)
    else
      Success(AddRequest(args[0], if |args| > 1 then args[1] else ""))
  }

  /** `handle_add(task_service, args_str)`. */
  function HandleAdd(s: Store, argsStr: string): (r: Response)
    ensures r.outcome.Failure? ==> r.store == s
    ensures Valid(s) ==> Valid(r.store)
    ensures s.nextId > 0 ==>
      (r.outcome.Failure? <==> AllWhitespace(TokenOr(Tokenize(argsStr), 0)))
    ensures r.outcome.Success? ==>
      && r.outcome.value == Task(s.nextId, Strip(TokenOr(Tokenize(argsStr), 0)), TokenOr(Tokenize(argsStr), 1), false)
      && r.store.tasks == s.tasks[s.nextId := r.outcome.value]
      && r.store.nextId == s.nextId + 1
  {
    match AddArguments(argsStr)
    case Failure(e) => Response(s, Failure(e))
    case Success(req) =>
      var reply := AddTask(s, req.title, req.description);
      match reply.outcome
      case Failure(e) => Response(reply.store, Failure(Service(e)))
      case Success(t) => Response(reply.store, Success(t))
  }

  /** `handle_update` up to the service call, with `int()` as the parameter
      `parseInt`: tokens padded to three; the id is the first token; an
      empty second or third token becomes `None`. */
  function UpdateArguments(argsStr: string, parseInt: string -> Option<int>): (r: Result<UpdateRequest, CommandError>)
    ensures r.Failure? <==> parseInt(TokenOr(Tokenize(argsStr), 0)).None?
    ensures r.Failure? ==> r.error == IdNotNumber
    ensures r.Success? ==>
      && Some(r.value.id) == parseInt(TokenOr(Tokenize(argsStr), 0))
      && r.value.title == (if TokenOr(Tokenize(argsStr), 1) == [] then None else Some(TokenOr(Tokenize(argsStr), 1)))
      && r.value.description == (if TokenOr(Tokenize(argsStr), 2) == [] then None else Some(TokenOr(Tokenize(argsStr), 2)))
  {
    var args := ParseArgs(argsStr, Some(3));
    if |args| < 2 then
      Failure(TooFewArgs)
    else
      match parseInt(args[0])
      case None => Failure(IdNotNumber)
      case Some(id) =>
        Success(UpdateRequest(
          id,
          if |args| > 1 && args[1] != [] then Some(args[1]) else None,
          if |args| > 2 && args[2] != [] then Some(args[2]) else None))
  }

  /** `handle_update(task_service, args_str)`. */
  function HandleUpdate(s: Store, argsStr: string, parseInt: string -> Option<int>): (r: Response)
    ensures r.outcome.Failure? ==> r.store == s
    ensures Valid(s) ==> Valid(r.store)
    ensures r.store.nextId == s.nextId
    ensures r.outcome.Success? <==>
      var id := parseInt(TokenOr(Tokenize(argsStr), 0));
      id.Some? && id.value in s.tasks
    ensures parseInt(TokenOr(Tokenize(argsStr), 0)).None? ==> r.outcome == Failure(IdNotNumber)
    ensures var id := parseInt(TokenOr(Tokenize(argsStr), 0));
      id.Some? && id.value !in s.tasks ==> r.outcome == Failure(Service(NotFound(id.value)))
    ensures r.outcome.Success? ==>
      var id := parseInt(TokenOr(Tokenize(argsStr), 0));
      var title := TokenOr(Tokenize(argsStr), 1);
      var description := TokenOr(Tokenize(argsStr), 2);
      && id.Some? && id.value in s.tasks
      && var before := s.tasks[id.value];
      && r.outcome.value.id == before.id
      && r.outcome.value.completed == before.completed
      && r.outcome.value.title == (if AllWhitespace(title) then before.title else Strip(title))
      && r.outcome.value.description == (if description == [] then before.description else description)
      && (r.outcome.value.description == [] ==> before.description == [])
      && r.store.tasks == s.tasks[id.value := r.outcome.value]
  {
    match UpdateArguments(argsStr, parseInt)
    case Failure(e) => Response(s, Failure(e))
    case Success(req) =>
      var reply := UpdateTask(s, req.id, req.title, req.description);
      match reply.outcome
      case Failure(e) => Response(reply.store, Failure(Service(e)))
      case Success(t) => Response(reply.store, Success(t))
  }

  /** On a fresh store, a command line of a stripped title token and a
      description token adds task 1 with exactly those fields. */
  lemma AddToFreshStore(argsStr: string, title: string, description: string)
    requires Tokenize(argsStr) == [title, description]
    requires title != [] && IsStripped(title)
    ensures HandleAdd(Init(), argsStr).outcome == Success(Task(1, title, description, false))
  {
    StrippedIsFixpoint(title);
  }

  /** One command line end to end on a fresh store: the quoted second token
      becomes the description of task 1. */
  lemma ExampleAddQuoted()
    ensures HandleAdd(Init(), "title \"multi word desc\"").outcome
      == Success(Task(1, "title", "multi word desc", false))
  {
    ExampleQuotedTokens();
    assert IsStripped("title");
    AddToFreshStore("title \"multi word desc\"", "title", "multi word desc");
  }
}
