/**
 * The operator catalogue: the `Method` enum and the name-keyed dictionary built from it
 * (`Enum.GetValues(typeof(Method)).ToDictionary(x => x.ToString())`).
 */
module Catalogue {
  import opened Wrappers

  /** The operators the generator can synthesise, in declaration order. */
  datatype Method =
    | Select | Where | ToList | ToArray | Skip | Take | Count | Any
    | FirstOrDefault | First | SingleOrDefault | Single | All
    | LastOrDefault | Last | Reverse | Contains

  /** `Enum.GetValues(typeof(Method))`: every member, in declaration order. */
  const Methods: seq<Method> :=
    [ Select, Where, ToList, ToArray, Skip, Take, Count, Any,
      FirstOrDefault, First, SingleOrDefault, Single, All,
      LastOrDefault, Last, Reverse, Contains ]

  /** The enum's underlying value: the position of the member in the declaration. */
  function Ordinal(m: Method): nat {
    match m
    case Select => 0
    case Where => 1
    case ToList => 2
    case ToArray => 3
    case Skip => 4
    case Take => 5
    case Count => 6
    case Any => 7
    case FirstOrDefault => 8
    case First => 9
    case SingleOrDefault => 10
    case Single => 11
    case All => 12
    case LastOrDefault => 13
    case Last => 14
    case Reverse => 15
    case Contains => 16
  }

  /** `Method.ToString()`: the member's identifier. */
  function Name(m: Method): string {
    match m
    case Select => "Select"
    case Where => "Where"
    case ToList => "ToList"
    case ToArray => "ToArray"
    case Skip => "Skip"
    case Take => "Take"
    case Count => "Count"
    case Any => "Any"
    case FirstOrDefault => "FirstOrDefault"
    case First => "First"
    case SingleOrDefault => "SingleOrDefault"
    case Single => "Single"
    case All => "All"
    case LastOrDefault => "LastOrDefault"
    case Last => "Last"
    case Reverse => "Reverse"
    case Contains => "Contains"
  }

  /** The operators that produce a new sequence; every other member is terminal. */
  predicate ProducesSequence(m: Method) {
    m == Select || m == Where || m == Skip || m == Take || m == Reverse
  }

  /** No two members of `ms` share a name. */
  ghost predicate NamesDistinct(ms: seq<Method>) {
    forall i, j :: 0 <= i < j < |ms| ==> Name(ms[i]) != Name(ms[j])
  }

  /**
   * `ToDictionary(x => x.ToString())`: adds the members one by one and fails, as
   * `Dictionary.Add` does, when a name is already a key.
   */
  function ToDictionary(ms: seq<Method>): (r: Option<map<string, Method>>)
    ensures r.Some? <==> NamesDistinct(ms)
    ensures r.Some? ==> r.value.Keys == set m | m in ms :: Name(m)
    ensures r.Some? ==> forall m :: m in ms ==> r.value[Name(m)] == m
  {
    if ms == [] then Some(map[])
    else
      var init, last := ms[..|ms| - 1], ms[|ms| - 1];
      assert ms == init + [last];
      match ToDictionary(init)
      case None => None
      case Some(d) =>
        if Name(last) in d then
          var k :| k in init && Name(k) == Name(last);
          var i :| 0 <= i < |init| && init[i] == k;
          assert Name(ms[i]) == Name(ms[|ms| - 1]);
          None
        else
          assert NamesDistinct(ms) by {
            forall i, j | 0 <= i < j < |ms| ensures Name(ms[i]) != Name(ms[j]) {
              if j == |ms| - 1 {
                assert ms[i] in init;
              }
            }
          }
          Some(d[Name(last) := last])
  }

  /** `Method.ToString()` is injective. */
  lemma NameInjective(a: Method, b: Method)
    ensures Name(a) == Name(b) ==> a == b
  {
    if Name(a) == Name(b) {
      var s := Name(a);
      assert |s| == |Name(b)|;
      match a
      case Select => assert s[0] == 'S' && s[1] == 'e';
      case Where =>
      case ToList => assert s[0] == 'T' && s[2] == 'L';
      case ToArray => assert s[0] == 'T' && s[2] == 'A';
      case Skip => assert s[1] == 'k';
      case Take => assert s[1] == 'a';
      case Count => assert s[0] == 'C';
      case Any => assert s[1] == 'n';
      case FirstOrDefault =>
      case First => assert s[0] == 'F';
      case SingleOrDefault =>
      case Single => assert s[0] == 'S' && s[1] == 'i';
      case All => assert s[1] == 'l';
      case LastOrDefault =>
      case Last => assert s[0] == 'L';
      case Reverse => assert s[0] == 'R';
      case Contains => assert s[0] == 'C' && s[1] == 'o';
    }
  }

  /**
   * The catalogue is exactly the 17 members, pairwise distinct, so building the
   * name-keyed dictionary from it succeeds.
   */
  lemma CatalogueWellDefined()
    ensures |Methods| == 17
    ensures forall m: Method :: Ordinal(m) < 17 && Methods[Ordinal(m)] == m
    ensures NamesDistinct(Methods)
    ensures ToDictionary(Methods).Some?
  {
    forall m: Method ensures Ordinal(m) < 17 && Methods[Ordinal(m)] == m {
      match m
      case _ =>
    }
    forall i, j | 0 <= i < j < |Methods| ensures Name(Methods[i]) != Name(Methods[j]) {
      NameInjective(Methods[i], Methods[j]);
    }
  }

  /** The dictionary `methods` of the generator and of the syntax receiver. */
  function Dictionary(): map<string, Method> {
    CatalogueWellDefined();
    ToDictionary(Methods).value
  }

  /** `methods.TryGetValue(name, out var method)`. */
  function Lookup(name: string): Option<Method> {
    if name in Dictionary() then Some(Dictionary()[name]) else None
  }

  /** Name to member and back: every member is found under its own name, and only there. */
  lemma LookupRoundTrip(m: Method, name: string)
    ensures Lookup(Name(m)) == Some(m)
    ensures Lookup(name) == Some(m) <==> name == Name(m)
  {
    CatalogueWellDefined();
    if Lookup(name) == Some(m) {
      assert name in Dictionary().Keys;
      var k :| k in Methods && Name(k) == name;
      assert Dictionary()[Name(k)] == k;
    }
  }

  /** There is no `ToDictionary` member, so a `.ToDictionary(...)` call is never looked up successfully. */
  lemma NoToDictionary()
    ensures Lookup("ToDictionary") == None
  {
    if Lookup("ToDictionary").Some? {
      var k := Lookup("ToDictionary").value;
      LookupRoundTrip(k, "ToDictionary");
    }
  }
}
