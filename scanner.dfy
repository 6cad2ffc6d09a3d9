/**
 * The syntax receiver: the object the compiler hands every syntax node of a
 * compilation to, before the generator runs.  It keeps, in visit order,
 * every member access whose member name is one of the supported operators,
 * and it remembers the parse options of the first node it saw.
 */
module Scanner {
  import opened Wrappers
  import opened Catalogue

  /**
   * The three kinds of syntax node the generator looks at.  `id` tells apart
   * two textually equal nodes at different places of a compilation.
   */
  datatype Syntax =
    | MemberAccess(id: nat, expression: Syntax, memberName: string)
    | Invocation(id: nat, expression: Syntax)
    | OtherSyntax(id: nat)

  type MemberAccessSyntax = s: Syntax | s.MemberAccess? witness MemberAccess(0, OtherSyntax(0), "")

  /** The parse options of a syntax tree; only their identity matters here. */
  datatype ParseOptions = ParseOptions(id: nat)

  /** Whether the receiver keeps `node`: a member access naming a known operator. */
  predicate Candidate(methods: map<string, Method>, node: Syntax)
  {
    node.MemberAccess? && node.memberName in methods
  }

  /** The member accesses a receiver has kept after visiting `nodes`, in visit order. */
  function Investigated(methods: map<string, Method>, nodes: seq<Syntax>): (r: seq<MemberAccessSyntax>)
    ensures |r| <= |nodes|
    ensures forall s: Syntax :: s in r <==> s in nodes && Candidate(methods, s)
  {
    if nodes == [] then []
    else
      var rest := Investigated(methods, nodes[..|nodes| - 1]);
      var last := nodes[|nodes| - 1];
      assert nodes == nodes[..|nodes| - 1] + [last];
      if Candidate(methods, last) then rest + [last] else rest
  }

  /** Visiting two stretches of nodes keeps what each stretch keeps, in order. */
  lemma {:induction false} InvestigatedAppend(methods: map<string, Method>, a: seq<Syntax>, b: seq<Syntax>)
    ensures Investigated(methods, a + b) == Investigated(methods, a) + Investigated(methods, b)
    decreases |b|
  {
    if b == [] {
      assert a + b == a;
    } else {
      var b' := b[..|b| - 1];
      assert (a + b)[..|a + b| - 1] == a + b';
      assert (a + b)[|a + b| - 1] == b[|b| - 1];
      InvestigatedAppend(methods, a, b');
    }
  }

  /**
   * With the operator catalogue as dictionary, every kept node names a
   * catalogue operator, and in particular none names `ToDictionary`.
   */
  lemma CatalogueCandidates(nodes: seq<Syntax>)
    ensures forall s :: s in Investigated(Dictionary(), nodes) ==>
      Lookup(s.memberName).Some? && s.memberName != "ToDictionary"
  {
    forall s | s in Investigated(Dictionary(), nodes)
      ensures Lookup(s.memberName).Some? && s.memberName != "ToDictionary"
    {
      NoToDictionary();
    }
  }

  class SyntaxReceiver {
    /** The operator dictionary the receiver filters member names by. */
    const methods: map<string, Method>
    /** The member accesses to investigate, in visit order. */
    var toInvestigate: seq<MemberAccessSyntax>
    /** The parse options of the first visited node, None before any visit. */
    var parseOptions: Option<ParseOptions>
    /** Every node visited so far, with the options of its syntax tree. */
    ghost var visited: seq<Syntax>
    ghost var visitedOptions: seq<ParseOptions>

    ghost predicate Valid()
      reads this
    {
      |visitedOptions| == |visited| &&
      toInvestigate == Investigated(methods, visited) &&
      parseOptions == (if visitedOptions == [] then None else Some(visitedOptions[0]))
    }

    constructor (methods: map<string, Method>)
      ensures Valid()
      ensures this.methods == methods && visited == [] && toInvestigate == [] && parseOptions == None
    {
      this.methods := methods;
      toInvestigate := [];
      parseOptions := None;
      visited := [];
      visitedOptions := [];
    }

    /** Records the first options seen, and keeps `node` when it is a candidate. */
    method OnVisitSyntaxNode(node: Syntax, options: ParseOptions)
      requires Valid()
      modifies this
      ensures Valid()
      ensures visited == old(visited) + [node] && visitedOptions == old(visitedOptions) + [options]
      ensures toInvestigate == old(toInvestigate) + (if Candidate(methods, node) then [node] else [])
      ensures parseOptions == if old(parseOptions).None? then Some(options) else old(parseOptions)
    {
      if parseOptions.None? {
        parseOptions := Some(options);
      }
      visited := visited + [node];
      visitedOptions := visitedOptions + [options];
      assert visited[..|visited| - 1] == old(visited);
      if node.MemberAccess? && node.memberName in methods {
        toInvestigate := toInvestigate + [node];
      }
    }
  }
}
