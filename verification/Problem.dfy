/** Problem details (RFC 9457): copies on the heap that share nothing, and the JSON text with its
    extension members at the top level. */
module Problem {
  import opened Strings

  /** An extension value, of any Go type; only the JSON library looks inside. */
  datatype Value =
    | Null
    | Scalar(text: string)
    | Array(items: seq<Value>)
    | Object(members: map<string, Value>)
    | Struct(fields: seq<(string, Value)>)

  datatype ValidationError = ValidationError(detail: string, code: string, location: string, field: string)

  /** What a Problem says, apart from its internal cause. A nil Errors slice is None. */
  datatype Details = Details(
    typeUri: string, title: string, status: int, detail: string, instanceUri: string,
    errors: Option<seq<ValidationError>>, extensions: map<string, Value>)

  predicate IsReservedField(key: string) {
    || key == "type" || key == "title" || key == "status"
    || key == "detail" || key == "instance" || key == "errors"
  }

  predicate ValidDetails(d: Details) {
    forall k | k in d.extensions :: !IsReservedField(k)
  }

  // --------------------------------------------------------------- copies on the heap

  /** The Go slice and the Go map behind a Problem. */
  class ErrorList {
    var items: seq<ValidationError>
    constructor (items: seq<ValidationError>) ensures this.items == items { this.items := items; }
  }

  class ExtensionMap {
    var members: map<string, Value>
    constructor (members: map<string, Value>) ensures this.members == members { this.members := members; }
  }

  datatype WithResult = EmptyKey | ReservedKey | Derived(problem: Problem)

  class Problem {
    var cause: Option<int>
    var typeUri: string
    var title: string
    var status: int
    var detail: string
    var instanceUri: string
    var errors: ErrorList?
    var extensions: ExtensionMap?

    constructor (status: int, title: string, detail: string)
      ensures Says() == Details("", title, status, detail, "", None, map[]) && cause == None
      ensures errors == null && extensions == null
    {
      cause, typeUri, instanceUri, errors, extensions := None, "", "", null, null;
      this.status, this.title, this.detail := status, title, detail;
    }

    ghost function Parts(): set<object>
      reads this
    {
      {this} + (if errors == null then {} else {errors}) + (if extensions == null then {} else {extensions})
    }

    function Says(): Details
      reads this, errors, extensions
    {
      Details(typeUri, title, status, detail, instanceUri,
              if errors == null then None else Some(errors.items),
              if extensions == null then map[] else extensions.members)
    }

    /** An independent copy: not one part of it is shared with anything that existed before. */
    method Clone() returns (copied: Problem)
      ensures fresh(copied.Parts()) && copied.Says() == Says() && copied.cause == cause
    {
      copied := new Problem(status, title, detail);
      copied.cause, copied.typeUri, copied.instanceUri := cause, typeUri, instanceUri;
      if extensions != null {
        copied.extensions := new ExtensionMap(extensions.members);
      }
      if errors != null {
        copied.errors := new ErrorList(errors.items);
      }
    }

    method WithType(value: string) returns (copied: Problem)
      ensures fresh(copied.Parts()) && copied.Says() == Says().(typeUri := value) && copied.cause == cause
    {
      copied := Clone();
      copied.typeUri := value;
    }

    method WithInstance(value: string) returns (copied: Problem)
      ensures fresh(copied.Parts()) && copied.Says() == Says().(instanceUri := value) && copied.cause == cause
    {
      copied := Clone();
      copied.instanceUri := value;
    }

    method WithError(value: int) returns (copied: Problem)
      ensures fresh(copied.Parts()) && copied.Says() == Says() && copied.cause == Some(value)
    {
      copied := Clone();
      copied.cause := Some(value);
    }

    method AddError(error: ValidationError) returns (copied: Problem)
      ensures fresh(copied.Parts()) && copied.cause == cause
      ensures copied.Says() == Says().(errors := Some((if Says().errors.None? then []
          else Says().errors.value) + [error]))
    {
      copied := Clone();
      if copied.errors == null {
        copied.errors := new ErrorList([error]);
        assert [] + [error] == [error];
      } else {
        copied.errors.items := copied.errors.items + [error];
      }
    }

    /** The key is trimmed first; an empty or a standard one is a programming error. */
    method With(key: string, value: Value) returns (result: WithResult)
      ensures result.EmptyKey? <==> Trim(key) == ""
      ensures result.ReservedKey? <==> Trim(key) in {"type", "title", "status", "detail", "instance", "errors"}
      ensures result.Derived? ==>
                && fresh(result.problem.Parts()) && result.problem.cause == cause
                && result.problem.Says() == Says().(extensions := Says().extensions[Trim(key) := value])
                && (ValidDetails(Says()) ==> ValidDetails(result.problem.Says()))
    {
      var trimmedKey := Trim(key);
      if trimmedKey == "" {
        return EmptyKey;
      }
      if IsReservedField(trimmedKey) {
        return ReservedKey;
      }
      var copied := Clone();
      if copied.extensions == null {
        copied.extensions := new ExtensionMap(map[]);
      }
      copied.extensions.members := copied.extensions.members[trimmedKey := value];
      return Derived(copied);
    }
  }

  // --------------------------------------------------------------- chains of copies

  datatype Change =
    | Typed(uri: string) | Located(uri: string) | Caused(cause: int)
    | Errored(error: ValidationError) | Extended(key: string, member: Value)

  /** With panics on these keys. */
  predicate Allowed(change: Change) {
    change.Extended? ==> Trim(change.key) != "" && !IsReservedField(Trim(change.key))
  }

  function Changed(d: Details, change: Change): Details {
    match change
    case Typed(value) => d.(typeUri := value)
    case Located(value) => d.(instanceUri := value)
    case Caused(_) => d
    case Errored(error) => d.(errors := Some((if d.errors.None? then [] else d.errors.value) + [error]))
    case Extended(key, value) => d.(extensions := d.extensions[Trim(key) := value])
  }

  function ChangedBy(d: Details, changes: seq<Change>): Details {
    if changes == [] then d else Changed(ChangedBy(d, changes[..|changes| - 1]), changes[|changes| - 1])
  }

  method Apply(problem: Problem, change: Change) returns (copied: Problem)
    requires Allowed(change)
    ensures fresh(copied.Parts()) && copied.Says() == Changed(problem.Says(), change)
  {
    match change {
      case Typed(value) => copied := problem.WithType(value);
      case Located(value) => copied := problem.WithInstance(value);
      case Caused(value) => copied := problem.WithError(value);
      case Errored(error) => copied := problem.AddError(error);
      case Extended(key, value) =>
        var result := problem.With(key, value);
        copied := result.problem;
    }
  }

  lemma ChangedByPrefix(d: Details, changes: seq<Change>, k: nat)
    requires k < |changes|
    ensures ChangedBy(d, changes[..|changes| - 1][..k]) == ChangedBy(d, changes[..k])
    ensures ChangedBy(d, changes[..|changes|]) == ChangedBy(d, changes)
  {
    assert changes[..|changes| - 1][..k] == changes[..k];
    assert changes[..|changes|] == changes;
  }

  method DeriveNext(earlier: seq<Problem>, change: Change) returns (all: seq<Problem>)
    requires earlier != [] && Allowed(change)
    requires forall i, j | 0 <= i < j < |earlier| :: earlier[i].Parts() !! earlier[j].Parts()
    ensures |all| == |earlier| + 1 && forall k | 0 <= k < |earlier| :: all[k] == earlier[k]
    ensures forall k | 0 <= k < |earlier| :: all[k].Says() == old(earlier[k].Says())
    ensures all[|earlier|].Says() == Changed(old(earlier[|earlier| - 1].Says()), change)
    ensures forall i, j | 0 <= i < j < |all| :: all[i].Parts() !! all[j].Parts()
  {
    var last := Apply(earlier[|earlier| - 1], change);
    all := earlier + [last];
  }

  /** Along any chain of derivations every Problem, the shared first one included, still says in
      the end what it said when it was made, and no two of them share a slice or a map. */
  method Derive(first: Problem, changes: seq<Change>) returns (all: seq<Problem>)
    requires forall i | 0 <= i < |changes| :: Allowed(changes[i])
    ensures |all| == |changes| + 1 && all[0] == first
    ensures forall k | 0 <= k < |all| :: all[k].Says() == ChangedBy(old(first.Says()), changes[..k])
    ensures forall i, j | 0 <= i < j < |all| :: all[i].Parts() !! all[j].Parts()
  {
    if changes == [] {
      return [first];
    }
    var n := |changes| - 1;
    var earlier := Derive(first, changes[..n]);
    all := DeriveNext(earlier, changes[n]);
    forall k | 0 <= k < |all| ensures all[k].Says() == ChangedBy(old(first.Says()), changes[..k]) {
      ChangedByPrefix(old(first.Says()), changes, if k < n then k else n);
    }
  }
}
