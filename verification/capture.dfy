/**
 * The capture side (`ReportsExceptions`): the settings `saves_exceptions`
 * records, the decision `rescue_all_exceptions` takes about writing a record,
 * and where the record goes.
 *
 * Ruby symbols and strings are distinct values: `:Foo != 'Foo'`, which is
 * what makes the different treatment of `only` and `except` observable.
 */
module Capture {
  import opened Wrappers
  import opened RecordStore

  /** A value in an `only`/`except` list: a Ruby symbol or a Ruby string. */
  datatype Value = Sym(name: string) | Str(text: string)

  /** `v.to_sym`. */
  function ToSym(v: Value): (r: Value)
    ensures r.Sym?
    ensures r.name == (if v.Sym? then v.name else v.text)
  {
    match v
    case Sym(n) => Sym(n)
    case Str(t) => Sym(t)
  }

  /**
   * The `except` option as `saves_exceptions` stores it. Unlike `only` it is
   * not wrapped in a list, so a single symbol or string stays one.
   */
  datatype Except = List(items: seq<Value>) | Single(item: Value)

  /** The exception being rescued; `log_when` receives it. */
  datatype Exc = Exc(className: string)

  /** The options of `saves_exceptions` that affect capture (an `only` list is already flattened). */
  datatype SaveOptions = SaveOptions(
    hostname: Option<string>,
    exceptionsDir: Option<string>,
    only: Option<seq<Value>>,
    except: Option<Except>,
    logWhen: Option<Exc -> bool>)

  /** What `saves_exceptions` stores on the controller class. */
  datatype Config = Config(
    hostname: string,
    exceptionsDir: string,
    only: Option<seq<Value>>,
    except: Option<Except>,
    logWhen: Option<Exc -> bool>)

  /**
   * `saves_exceptions(opts)`: the host name defaults to the machine's name and
   * the directory to `RAILS_ROOT/log/exceptions`; `only` becomes a list of
   * symbols, `except` and `log_when` are kept as given.
   */
  function SavesExceptions(opts: SaveOptions, machineName: string, railsRoot: string): (c: Config)
    ensures c.hostname == (if opts.hostname.Some? then opts.hostname.value else machineName)
    ensures c.exceptionsDir == (if opts.exceptionsDir.Some? then opts.exceptionsDir.value
                                else railsRoot + "/log/exceptions")
    ensures c.only.Some? <==> opts.only.Some?
    ensures c.only.Some? ==> |c.only.value| == |opts.only.value|
    ensures c.only.Some? ==>
              forall i :: 0 <= i < |c.only.value| ==> c.only.value[i] == ToSym(opts.only.value[i])
    ensures c.except == opts.except
    ensures c.logWhen == opts.logWhen
  {
    Config(
      opts.hostname.GetOr(machineName),
      opts.exceptionsDir.GetOr(railsRoot + "/log/exceptions"),
      match opts.only
      case None => None
      case Some(vs) => Some(seq(|vs|, i requires 0 <= i < |vs| => ToSym(vs[i]))),
      opts.except,
      opts.logWhen)
  }

  /** `check_block(ex, &block)`: true without a block, else the block's (truthy) answer. */
  function CheckBlock(logWhen: Option<Exc -> bool>, ex: Exc): bool
  {
    match logWhen
    case None => true
    case Some(block) => block(ex)
  }

  /**
   * `except.include?(className.to_sym)`: membership in a list. A single
   * Symbol has no `include?` (NoMethodError) and `String#include?` refuses a
   * Symbol (TypeError), so a single value fails.
   */
  function ExceptIncludes(e: Except, className: string): (r: Result<bool>)
    ensures r.Ok? <==> e.List?
    ensures r.Ok? ==> (r.value <==> Sym(className) in e.items)
    ensures r.Err? ==> r.error == ExceptNotList(className)
  {
    match e
    case List(vs) => Ok(Sym(className) in vs)
    case Single(_) => Err(ExceptNotList(className))
  }

  /**
   * Whether `rescue_all_exceptions` writes a record for `ex`; it fails when
   * the class passes `only` and `except` is not a list.
   */
  function ShouldWrite(c: Config, ex: Exc): (w: Result<bool>)
    ensures w.Err? <==>
      (c.only.None? || Sym(ex.className) in c.only.value) && c.except.Some? && c.except.value.Single?
    ensures w.Ok? ==> (w.value <==>
      (c.only.None? || Sym(ex.className) in c.only.value) &&
      (c.except.None? || Sym(ex.className) !in c.except.value.items) &&
      (c.logWhen.None? || c.logWhen.value(ex)))
  {
    if c.only.Some? && Sym(ex.className) !in c.only.value then Ok(false)
    else if c.except.None? then Ok(CheckBlock(c.logWhen, ex))
    else
      var excluded :- ExceptIncludes(c.except.value, ex.className);
      if excluded then Ok(false) else Ok(CheckBlock(c.logWhen, ex))
  }

  /** The record `rescue_all_exceptions` writes at instant `t`, if any, or the error it raises. */
  function Rescue(c: Config, ex: Exc, t: int): (path: Result<Option<string>>)
    ensures path.Err? <==> ShouldWrite(c, ex).Err?
    ensures path.Ok? ==> (path.value.Some? <==> ShouldWrite(c, ex) == Ok(true))
    ensures path.Ok? && path.value.Some? ==> path.value.value == RecordPath(c.exceptionsDir, ex.className, t)
  {
    var write :- ShouldWrite(c, ex);
    if write then Ok(Some(RecordPath(c.exceptionsDir, ex.className, t))) else Ok(None)
  }

  /** Without `only`, `except` or `log_when` every exception is written. */
  lemma WritesByDefault(opts: SaveOptions, machineName: string, railsRoot: string, ex: Exc)
    requires opts.only.None? && opts.except.None? && opts.logWhen.None?
    ensures ShouldWrite(SavesExceptions(opts, machineName, railsRoot), ex) == Ok(true)
  {
  }

  /** A class outside a given `only` list is never written, whatever `log_when` says. */
  lemma OnlyExcludes(opts: SaveOptions, machineName: string, railsRoot: string, ex: Exc)
    requires opts.only.Some?
    requires forall v :: v in opts.only.value ==> ToSym(v) != Sym(ex.className)
    ensures ShouldWrite(SavesExceptions(opts, machineName, railsRoot), ex) == Ok(false)
  {
  }

  /** An empty `only` list (present, hence truthy) stops every record. */
  lemma EmptyOnlyWritesNothing(opts: SaveOptions, machineName: string, railsRoot: string, ex: Exc)
    requires opts.only == Some([])
    ensures ShouldWrite(SavesExceptions(opts, machineName, railsRoot), ex) == Ok(false)
  {
  }

  /**
   * `only` is normalised to symbols element by element, so how each entry is
   * spelled does not matter: two `only` lists that name the same symbols,
   * position by position, decide every exception alike.
   */
  lemma OnlySpellingIrrelevant(opts: SaveOptions, machineName: string, railsRoot: string, ex: Exc, ws: seq<Value>)
    requires opts.only.Some? && |ws| == |opts.only.value|
    requires forall i :: 0 <= i < |ws| ==> ToSym(ws[i]) == ToSym(opts.only.value[i])
    ensures ShouldWrite(SavesExceptions(opts, machineName, railsRoot), ex)
            == ShouldWrite(SavesExceptions(opts.(only := Some(ws)), machineName, railsRoot), ex)
  {
    var c := SavesExceptions(opts, machineName, railsRoot);
    var c' := SavesExceptions(opts.(only := Some(ws)), machineName, railsRoot);
    assert c.only.value == c'.only.value;
  }

  /** In particular a list of strings decides like the list of the same names as symbols. */
  lemma OnlyStringsAsSymbols(opts: SaveOptions, machineName: string, railsRoot: string, ex: Exc)
    requires opts.only.Some?
    ensures var vs := opts.only.value;
            ShouldWrite(SavesExceptions(opts, machineName, railsRoot), ex)
            == ShouldWrite(SavesExceptions(opts.(only := Some(seq(|vs|, i requires 0 <= i < |vs| => ToSym(vs[i])))),
                                           machineName, railsRoot), ex)
  {
    var vs := opts.only.value;
    OnlySpellingIrrelevant(opts, machineName, railsRoot, ex, seq(|vs|, i requires 0 <= i < |vs| => ToSym(vs[i])));
  }

  /**
   * `except` is not normalised: naming a class there as a string does not
   * stop it, while naming it as a symbol does.
   */
  lemma ExceptSpellingMatters(opts: SaveOptions, machineName: string, railsRoot: string, ex: Exc)
    requires opts.only.None? && opts.logWhen.None?
    requires opts.except == Some(List([Str(ex.className)]))
    ensures ShouldWrite(SavesExceptions(opts, machineName, railsRoot), ex) == Ok(true)
    ensures ShouldWrite(SavesExceptions(opts.(except := Some(List([Sym(ex.className)]))), machineName, railsRoot), ex)
            == Ok(false)
  {
  }

  /**
   * `except` given as one symbol or string, not a list: every exception that
   * `only` lets through makes `rescue_all_exceptions` raise, and none is written.
   */
  lemma SingleExceptRaises(opts: SaveOptions, machineName: string, railsRoot: string, ex: Exc, t: int)
    requires opts.except.Some? && opts.except.value.Single?
    requires opts.only.None? || exists v :: v in opts.only.value && ToSym(v) == Sym(ex.className)
    ensures ShouldWrite(SavesExceptions(opts, machineName, railsRoot), ex).Err?
    ensures Rescue(SavesExceptions(opts, machineName, railsRoot), ex, t).Err?
  {
  }

  /** With `log_when`, the record is written exactly when the block answers truthily (and the lists allow it). */
  lemma LogWhenDecides(opts: SaveOptions, machineName: string, railsRoot: string, ex: Exc)
    requires opts.only.None? && opts.except.None? && opts.logWhen.Some?
    ensures ShouldWrite(SavesExceptions(opts, machineName, railsRoot), ex) == Ok(opts.logWhen.value(ex))
  {
  }
}
