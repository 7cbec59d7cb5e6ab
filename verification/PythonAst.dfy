/** Python syntax trees as `ast.parse` builds them, with the fields that the
    quality gate reads (scripts/check_python_quality.py). */
module PythonAst {
  import opened Wrappers

  /** Nodes the gate tells apart only to weigh them. `Branch` stands for If, For,
      AsyncFor, While, ExceptHandler, With, AsyncWith, Assert and IfExp. The
      children of BoolOp are its values, of Compare the left operand and the
      comparators, of Comprehension target, iterable and conditions, of Match the
      subject and the cases, of MatchCase the pattern, the guard and the body. */
  datatype Kind =
    | Branch | BoolOp | Compare | Comprehension
    | Match | MatchCase(guarded: bool) | MatchAs | MatchOr
    | Name(id: string)
    | Plain

  /** `id` tells the objects of one tree apart that look the same. */
  datatype Ast =
    | Module(body: seq<Ast>)
    | FunctionDef(name: string, args: Ast, body: seq<Ast>, decorators: seq<Ast>, result: Option<Ast>)
    | ClassDef(name: string, bases: seq<Ast>, keywords: seq<Ast>, body: seq<Ast>, decorators: seq<Ast>)
    | Lambda(args: Ast, value: Ast, line: nat)
    | Arguments(posonly: seq<Ast>, plain: seq<Ast>, vararg: Option<Ast>, kwonly: seq<Ast>,
                kwDefaults: seq<Ast>, kwarg: Option<Ast>, defaults: seq<Ast>)
    | Arg(annotation: Option<Ast>)
    | Assign(targets: seq<Ast>, right: Ast, line: nat)
    | AnnAssign(target: Ast, declared: Ast, initial: Option<Ast>, line: nat)
    | Node(kind: Kind, id: nat, children: seq<Ast>)

  function Given(o: Option<Ast>): seq<Ast> {
    match o case None => [] case Some(n) => [n]
  }

  /** `ast.iter_child_nodes`: the fields in declaration order. */
  function Children(n: Ast): seq<Ast> {
    match n
    case Module(body) => body
    case FunctionDef(_, args, body, decorators, result) => [args] + body + decorators + Given(result)
    case ClassDef(_, bases, keywords, body, decorators) => bases + keywords + body + decorators
    case Lambda(args, value, _) => [args, value]
    case Arguments(posonly, plain, vararg, kwonly, kwDefaults, kwarg, defaults) =>
      posonly + plain + Given(vararg) + kwonly + kwDefaults + Given(kwarg) + defaults
    case Arg(annotation) => Given(annotation)
    case Assign(targets, right, _) => targets + [right]
    case AnnAssign(target, declared, initial, _) => [target, declared] + Given(initial)
    case Node(_, _, children) => children
  }

  // ---------------------------------------------------------------- size

  function Size(n: Ast): (s: nat)
    ensures s > 0
  {
    1 + match n
        case Module(body) => SizeAll(body)
        case FunctionDef(_, args, body, decorators, result) =>
          Size(args) + SizeAll(body) + SizeAll(decorators) + SizeGiven(result)
        case ClassDef(_, bases, keywords, body, decorators) =>
          SizeAll(bases) + SizeAll(keywords) + SizeAll(body) + SizeAll(decorators)
        case Lambda(args, value, _) => Size(args) + Size(value)
        case Arguments(posonly, plain, vararg, kwonly, kwDefaults, kwarg, defaults) =>
          SizeAll(posonly) + SizeAll(plain) + SizeGiven(vararg) + SizeAll(kwonly) +
          SizeAll(kwDefaults) + SizeGiven(kwarg) + SizeAll(defaults)
        case Arg(annotation) => SizeGiven(annotation)
        case Assign(targets, right, _) => SizeAll(targets) + Size(right)
        case AnnAssign(target, declared, initial, _) => Size(target) + Size(declared) + SizeGiven(initial)
        case Node(_, _, children) => SizeAll(children)
  }

  function SizeGiven(o: Option<Ast>): nat {
    match o case None => 0 case Some(n) => Size(n)
  }

  function SizeAll(ns: seq<Ast>): nat {
    if ns == [] then 0 else Size(ns[0]) + SizeAll(ns[1..])
  }

  lemma {:induction false} SizeAppend(a: seq<Ast>, b: seq<Ast>)
    ensures SizeAll(a + b) == SizeAll(a) + SizeAll(b)
  {
    if a == [] {
      assert a + b == b;
    } else {
      assert (a + b)[1..] == a[1..] + b;
      SizeAppend(a[1..], b);
    }
  }

  lemma SizeOfGiven(o: Option<Ast>)
    ensures SizeAll(Given(o)) == SizeGiven(o)
  {
    if o.Some? { assert Given(o)[1..] == []; }
  }

  lemma SizeSingle(n: Ast)
    ensures SizeAll([n]) == Size(n)
  {
    assert [n][1..] == [];
  }

  lemma SizePair(m: Ast, n: Ast)
    ensures SizeAll([m, n]) == Size(m) + Size(n)
  {
    assert [m, n] == [m] + [n];
    SizeAppend([m], [n]);
    SizeSingle(m);
    SizeSingle(n);
  }

  lemma SizeArguments(n: Ast)
    requires n.Arguments?
    ensures SizeAll(Children(n)) == Size(n) - 1
  {
    var s1 := n.posonly + n.plain;
    var s2 := s1 + Given(n.vararg);
    var s3 := s2 + n.kwonly;
    var s4 := s3 + n.kwDefaults;
    var s5 := s4 + Given(n.kwarg);
    SizeAppend(n.posonly, n.plain);
    SizeAppend(s1, Given(n.vararg));
    SizeAppend(s2, n.kwonly);
    SizeAppend(s3, n.kwDefaults);
    SizeAppend(s4, Given(n.kwarg));
    SizeAppend(s5, n.defaults);
    SizeOfGiven(n.vararg);
    SizeOfGiven(n.kwarg);
  }

  lemma SizeFunction(n: Ast)
    requires n.FunctionDef?
    ensures SizeAll(Children(n)) == Size(n) - 1
  {
    var s1 := [n.args] + n.body;
    var s2 := s1 + n.decorators;
    SizeAppend([n.args], n.body);
    SizeAppend(s1, n.decorators);
    SizeAppend(s2, Given(n.result));
    SizeSingle(n.args);
    SizeOfGiven(n.result);
  }

  lemma SizeClass(n: Ast)
    requires n.ClassDef?
    ensures SizeAll(Children(n)) == Size(n) - 1
  {
    var s1 := n.bases + n.keywords;
    var s2 := s1 + n.body;
    SizeAppend(n.bases, n.keywords);
    SizeAppend(s1, n.body);
    SizeAppend(s2, n.decorators);
  }

  lemma SizeChildren(n: Ast)
    ensures SizeAll(Children(n)) == Size(n) - 1
  {
    match n {
      case Module(_) =>
      case FunctionDef(_, _, _, _, _) => SizeFunction(n);
      case ClassDef(_, _, _, _, _) => SizeClass(n);
      case Lambda(args, value, _) => SizePair(args, value);
      case Arguments(_, _, _, _, _, _, _) => SizeArguments(n);
      case Arg(annotation) => SizeOfGiven(annotation);
      case Assign(targets, right, _) =>
        SizeAppend(targets, [right]);
        SizeSingle(right);
      case AnnAssign(target, declared, initial, _) =>
        SizeAppend([target, declared], Given(initial));
        SizePair(target, declared);
        SizeOfGiven(initial);
      case Node(_, _, _) =>
    }
  }

  // ---------------------------------------------------------------- definitions

  predicate IsFunction(n: Ast) { n.FunctionDef? }

  predicate IsDefinition(n: Ast) { n.FunctionDef? || n.ClassDef? || n.Lambda? }

  function Annotations(params: seq<Ast>): seq<Ast> {
    if params == [] then []
    else (if params[0].Arg? then Given(params[0].annotation) else []) + Annotations(params[1..])
  }

  function ArgumentAnnotations(args: Ast): seq<Ast> {
    if !args.Arguments? then []
    else Annotations(args.posonly) + Annotations(args.plain) + Annotations(args.kwonly)
         + Annotations(Given(args.vararg)) + Annotations(Given(args.kwarg))
  }

  /** Expressions evaluated while a callable is created, not its body. */
  function ArgumentFields(args: Ast, postponed: bool): seq<Ast> {
    if !args.Arguments? then []
    else args.defaults + args.kwDefaults + (if postponed then [] else ArgumentAnnotations(args))
  }

  /** Expressions a definition evaluates in its enclosing executable scope. */
  function SetupFields(n: Ast, postponed: bool): seq<Ast> {
    match n
    case FunctionDef(_, args, _, decorators, result) =>
      decorators + ArgumentFields(args, postponed) + (if postponed then [] else Given(result))
    case ClassDef(_, bases, keywords, _, decorators) => decorators + bases + keywords
    case Lambda(args, _, _) => ArgumentFields(args, postponed)
    case _ => []
  }

  /** What the scope owned by a definition (or a module) runs. */
  function ScopeBody(n: Ast): seq<Ast> {
    match n
    case Module(body) => body
    case FunctionDef(_, _, body, _, _) => body
    case ClassDef(_, _, _, body, _) => body
    case Lambda(_, value, _) => [value]
    case _ => []
  }

  lemma {:induction false} SizeAnnotations(params: seq<Ast>)
    ensures SizeAll(Annotations(params)) <= SizeAll(params)
  {
    if params != [] {
      SizeAnnotations(params[1..]);
      var first := if params[0].Arg? then Given(params[0].annotation) else [];
      SizeAppend(first, Annotations(params[1..]));
      if params[0].Arg? { SizeOfGiven(params[0].annotation); }
    }
  }

  lemma SizeArgumentAnnotations(args: Ast)
    requires args.Arguments?
    ensures SizeAll(ArgumentAnnotations(args)) <= SizeAll(args.posonly) + SizeAll(args.plain) +
            SizeAll(args.kwonly) + SizeGiven(args.vararg) + SizeGiven(args.kwarg)
  {
    var s1 := Annotations(args.posonly) + Annotations(args.plain);
    var s2 := s1 + Annotations(args.kwonly);
    var s3 := s2 + Annotations(Given(args.vararg));
    SizeAnnotations(args.posonly);
    SizeAnnotations(args.plain);
    SizeAnnotations(args.kwonly);
    SizeAnnotations(Given(args.vararg));
    SizeAnnotations(Given(args.kwarg));
    SizeOfGiven(args.vararg);
    SizeOfGiven(args.kwarg);
    SizeAppend(Annotations(args.posonly), Annotations(args.plain));
    SizeAppend(s1, Annotations(args.kwonly));
    SizeAppend(s2, Annotations(Given(args.vararg)));
    SizeAppend(s3, Annotations(Given(args.kwarg)));
  }

  lemma SizeArgumentFields(args: Ast, postponed: bool)
    ensures SizeAll(ArgumentFields(args, postponed)) < Size(args)
  {
    if args.Arguments? {
      var s1 := args.defaults + args.kwDefaults;
      SizeAppend(args.defaults, args.kwDefaults);
      SizeAppend(s1, if postponed then [] else ArgumentAnnotations(args));
      SizeArgumentAnnotations(args);
    }
  }

  lemma SizeSetup(n: Ast, postponed: bool)
    requires IsDefinition(n)
    ensures SizeAll(SetupFields(n, postponed)) + SizeAll(ScopeBody(n)) < Size(n)
  {
    match n {
      case FunctionDef(_, args, body, decorators, result) =>
        SizeArgumentFields(args, postponed);
        SizeAppend(decorators, ArgumentFields(args, postponed));
        SizeAppend(decorators + ArgumentFields(args, postponed), if postponed then [] else Given(result));
        SizeOfGiven(result);
      case ClassDef(_, bases, keywords, body, decorators) =>
        SizeAppend(decorators, bases);
        SizeAppend(decorators + bases, keywords);
      case Lambda(args, value, _) =>
        SizeArgumentFields(args, postponed);
        SizeSingle(value);
    }
  }
}
