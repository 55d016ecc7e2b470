/**
 The property descriptor of a managed model type (`ModelProperty`): an
 immutable record of one property's name, value type, managed and writable
 flags, declaring supertypes, getter and setter annotations and getter handle.

 The collaborators the descriptor only calls into are type parameters or
 function parameters:
 - `Ty`: a `ModelType` token, compared with `ModelType.equals`;
 - `K`, `A`: annotation kinds (`Class<? extends Annotation>`) and annotation instances;
 - `H`: the getter handle (`WeaklyTypeReferencingMethod`), run through an `invoke` parameter;
 - `nameHash`, `typeHash`, `simpleName`: `String.hashCode`, `ModelType.hashCode`
   and `ModelType.getSimpleName`.
 */
module Schema {
  import opened JavaLang
  import opened ImmutableCollections

  datatype ModelProperty<Ty, K(==), A, H> = ModelProperty(
    name: string,
    valueType: Ty,
    managed: bool,
    writable: bool,
    declaredBy: set<Ty>,
    getter: H,
    annotations: ImmutableMap<K, A>,
    setterAnnotations: ImmutableMap<K, A>)

  /** The argument of `equals(Object)`: `null`, this very descriptor, another
      descriptor object (possibly with the same contents), or an object of some other class. */
  datatype Argument<P, X> = NullArgument | ThisInstance | OtherProperty(that: P) | OtherClass(instance: X)

  /** The failures of `getPropertyValue`. */
  datatype ReadFailure<E> =
    | NullPointerException(message: string)  // the instance was null
    | GetterFailed(cause: E)                 // the getter handle threw

  // ---------------------------------------------------------------- construction

  /** The factory `of`. Values are immutable, so the stored set and maps are
      snapshots: nothing the caller does afterwards reaches them. Every accessor
      answers exactly what was passed in. */
  function Of<Ty, K(==), A, H>(valueType: Ty, name: string, managed: bool, writable: bool,
                               declaredBy: set<Ty>, getter: H,
                               annotations: ImmutableMap<K, A>,
                               setterAnnotations: ImmutableMap<K, A>): (p: ModelProperty<Ty, K, A, H>)
    ensures GetName(p) == name && GetType(p) == valueType
    ensures IsManaged(p) == managed && IsWritable(p) == writable
    ensures GetDeclaredBy(p) == declaredBy
    ensures GetAnnotations(p) == Values(annotations)
    ensures GetSetterAnnotations(p) == setterAnnotations
  {
    ModelProperty(name, valueType, managed, writable, declaredBy, getter, annotations, setterAnnotations)
  }

  // ---------------------------------------------------------------- accessors

  function GetName<Ty, K(==), A, H>(p: ModelProperty<Ty, K, A, H>): string {
    p.name
  }

  function GetType<Ty, K(==), A, H>(p: ModelProperty<Ty, K, A, H>): Ty {
    p.valueType
  }

  /** Whether the state of the property is managed. */
  function IsManaged<Ty, K(==), A, H>(p: ModelProperty<Ty, K, A, H>): bool {
    p.managed
  }

  function IsWritable<Ty, K(==), A, H>(p: ModelProperty<Ty, K, A, H>): bool {
    p.writable
  }

  function GetDeclaredBy<Ty, K(==), A, H>(p: ModelProperty<Ty, K, A, H>): set<Ty> {
    p.declaredBy
  }

  /** Only stored so that validators can inspect them and complain. */
  function GetSetterAnnotations<Ty, K(==), A, H>(p: ModelProperty<Ty, K, A, H>): ImmutableMap<K, A> {
    p.setterAnnotations
  }

  // ---------------------------------------------------------------- reading the value

  /** How a failure of the getter handle surfaces from `getPropertyValue`. */
  function Lift<V, E>(o: Outcome<V, E>): Outcome<V, ReadFailure<E>> {
    match o
    case Returned(v) => Returned(v)
    case Threw(e) => Threw(GetterFailed(e))
  }

  /** `getPropertyValue`: a null instance is rejected with a `NullPointerException`
      before the getter handle is run; otherwise the handle's outcome is passed on. */
  function GetPropertyValue<Ty, K(==), A, H, I, V, E>(p: ModelProperty<Ty, K, A, H>, instance: Nullable<I>,
                                                    invoke: (H, I) -> Outcome<V, E>): (r: Outcome<V, ReadFailure<E>>)
    ensures instance.Null? ==> r == Threw(NullPointerException("instance"))
    ensures r.Returned? ==> instance.NonNull? && invoke(p.getter, instance.value) == Returned(r.value)
    ensures r.Threw? && r.exception.GetterFailed? ==>
              instance.NonNull? && invoke(p.getter, instance.value) == Threw(r.exception.cause)
    ensures instance.NonNull? ==> r.Returned? == invoke(p.getter, instance.value).Returned?
    ensures instance.NonNull? && invoke(p.getter, instance.value).Threw? ==>
              r == Threw(GetterFailed(invoke(p.getter, instance.value).exception))
  {
    match instance
    case Null => Threw(NullPointerException("instance"))
    case NonNull(x) => Lift(invoke(p.getter, x))
  }

  // ---------------------------------------------------------------- annotations

  /** `isAnnotationPresent`: a query of the getter annotations. */
  function IsAnnotationPresent<Ty, K(==), A, H>(p: ModelProperty<Ty, K, A, H>, kind: K): (b: bool)
    ensures b <==> kind in Keys(p.annotations)
  {
    ContainsKey(p.annotations, kind)
  }

  /** `getAnnotation`: the getter annotation of that kind, `null` when there is none. */
  function GetAnnotation<Ty, K(==), A, H>(p: ModelProperty<Ty, K, A, H>, kind: K): (r: Nullable<A>)
    ensures r.NonNull? <==> IsAnnotationPresent(p, kind)
    ensures forall i | 0 <= i < |p.annotations| && p.annotations[i].0 == kind ::
              r == NonNull(p.annotations[i].1)
  {
    Get(p.annotations, kind)
  }

  /** `getAnnotations`: the getter annotations, one per kind, in the snapshot's order. */
  function GetAnnotations<Ty, K(==), A, H>(p: ModelProperty<Ty, K, A, H>): (r: seq<A>)
    ensures |r| == |p.annotations|
    ensures forall i | 0 <= i < |r| :: GetAnnotation(p, p.annotations[i].0) == NonNull(r[i])
  {
    var r := Values(p.annotations);
    forall i | 0 <= i < |r| ensures GetAnnotation(p, p.annotations[i].0) == NonNull(r[i]) {
      ValuesAreLookups(p.annotations, i);
    }
    r
  }

  /** Every annotation `getAnnotation` finds is among `getAnnotations`. */
  lemma FoundAnnotationIsListed<Ty, K, A, H>(p: ModelProperty<Ty, K, A, H>, kind: K)
    requires IsAnnotationPresent(p, kind)
    ensures GetAnnotation(p, kind).value in GetAnnotations(p)
  {
  }

  /** The getter-annotation queries and the value read never consult the setter
      annotations, and the setter annotations are independent of the getter ones. */
  lemma GetterAndSetterAnnotationsIndependent<Ty, K, A, H, I, V, E>(p: ModelProperty<Ty, K, A, H>,
                                                                   getterAnnotations: ImmutableMap<K, A>,
                                                                   setterAnnotations: ImmutableMap<K, A>, kind: K,
                                                                   instance: Nullable<I>, invoke: (H, I) -> Outcome<V, E>)
    ensures var q := p.(setterAnnotations := setterAnnotations);
            && IsAnnotationPresent(q, kind) == IsAnnotationPresent(p, kind)
            && GetAnnotation(q, kind) == GetAnnotation(p, kind)
            && GetAnnotations(q) == GetAnnotations(p)
            && GetPropertyValue(q, instance, invoke) == GetPropertyValue(p, instance, invoke)
            && GetSetterAnnotations(q) == setterAnnotations
    ensures GetSetterAnnotations(p.(annotations := getterAnnotations)) == GetSetterAnnotations(p)
  {
  }

  /** A descriptor answers annotation queries from the getter map it was built with,
      and reads a non-null instance through the getter handle it was built with. */
  lemma QueriesUseSuppliedSnapshot<Ty, K, A, H, I, V, E>(valueType: Ty, name: string, managed: bool, writable: bool,
                                                        declaredBy: set<Ty>, getter: H,
                                                        annotations: ImmutableMap<K, A>, setterAnnotations: ImmutableMap<K, A>,
                                                        kind: K, invoke: (H, I) -> Outcome<V, E>, x: I)
    ensures var p := Of(valueType, name, managed, writable, declaredBy, getter, annotations, setterAnnotations);
            && IsAnnotationPresent(p, kind) == ContainsKey(annotations, kind)
            && GetAnnotation(p, kind) == Get(annotations, kind)
            && GetPropertyValue(p, NonNull(x), invoke) == Lift(invoke(getter, x))
  {
  }

  /** The null check comes first: a null instance fails the same way whatever the getter handle
      would do. This restates the first `ensures` of `GetPropertyValue` with the handle varied. */
  lemma NullInstanceNeverReachesGetter<Ty, K, A, H, I, V, E>(p: ModelProperty<Ty, K, A, H>,
                                                            invoke1: (H, I) -> Outcome<V, E>,
                                                            invoke2: (H, I) -> Outcome<V, E>)
    ensures GetPropertyValue(p, Null, invoke1) == GetPropertyValue(p, Null, invoke2)
    ensures GetPropertyValue(p, Null, invoke1).Threw?
  {
  }

  // ---------------------------------------------------------------- equality and hashing

  /** The fields that decide equality: name, value type and writability. */
  predicate SameIdentity<Ty(==), K(==), A, H>(p: ModelProperty<Ty, K, A, H>, q: ModelProperty<Ty, K, A, H>) {
    p.name == q.name && p.valueType == q.valueType && p.writable == q.writable
  }

  /** `equals`: true for this very object, false for null and for other classes,
      and for another descriptor exactly when name, type and writability agree. */
  function Equals<Ty(==), K(==), A, H, X>(p: ModelProperty<Ty, K, A, H>, o: Argument<ModelProperty<Ty, K, A, H>, X>): (r: bool)
    ensures o.ThisInstance? ==> r
    ensures o.NullArgument? || o.OtherClass? ==> !r
    ensures o.OtherProperty? ==> (r <==> SameIdentity(p, o.that))
  {
    match o
    case ThisInstance => true
    case NullArgument => false
    case OtherClass(_) => false
    case OtherProperty(that) => p.name == that.name && p.valueType == that.valueType && p.writable == that.writable
  }

  /** Comparing with itself through a second reference gives what the identity short-cut gives. */
  lemma IdentityShortCutAgrees<Ty, K, A, H, X>(p: ModelProperty<Ty, K, A, H>)
    ensures Equals<Ty, K, A, H, X>(p, ThisInstance) == Equals<Ty, K, A, H, X>(p, OtherProperty(p))
  {
  }

  /** Equality between descriptors is an equivalence relation. */
  lemma EqualsIsEquivalence<Ty, K, A, H, X>(p: ModelProperty<Ty, K, A, H>, q: ModelProperty<Ty, K, A, H>,
                                               s: ModelProperty<Ty, K, A, H>)
    ensures Equals<Ty, K, A, H, X>(p, OtherProperty(p))
    ensures Equals<Ty, K, A, H, X>(p, OtherProperty(q)) == Equals<Ty, K, A, H, X>(q, OtherProperty(p))
    ensures Equals<Ty, K, A, H, X>(p, OtherProperty(q)) && Equals<Ty, K, A, H, X>(q, OtherProperty(s)) ==>
              Equals<Ty, K, A, H, X>(p, OtherProperty(s))
  {
  }

  /** `hashCode`, step by step as in `ModelProperty.hashCode`, with `int` wrap-around
      after every operation. The result is the polynomial
      `31 * (31 * h(name) + h(type)) + h(writable)` computed exactly and wrapped to `int` once. */
  function HashCode<Ty, K(==), A, H>(p: ModelProperty<Ty, K, A, H>, nameHash: string -> Int32, typeHash: Ty -> Int32): (r: Int32)
    ensures r == Wrap(31 * (31 * nameHash(p.name) as int + typeHash(p.valueType) as int) + BooleanHashCode(p.writable) as int)
  {
    var result := nameHash(p.name);
    var next := IntAdd(IntMul(31, result), typeHash(p.valueType));
    MulAddWrapsOnce(31, result, typeHash(p.valueType), result as int);
    var last := IntAdd(IntMul(31, next), BooleanHashCode(p.writable));
    MulAddWrapsOnce(31, next, BooleanHashCode(p.writable), 31 * result as int + typeHash(p.valueType) as int);
    last
  }

  /** Equal descriptors have equal hash codes. */
  lemma EqualsImpliesEqualHashCodes<Ty, K, A, H, X>(p: ModelProperty<Ty, K, A, H>, o: Argument<ModelProperty<Ty, K, A, H>, X>,
                                                       nameHash: string -> Int32, typeHash: Ty -> Int32)
    requires Equals(p, o) && !o.ThisInstance?
    ensures o.OtherProperty? && HashCode(o.that, nameHash, typeHash) == HashCode(p, nameHash, typeHash)
  {
  }

  /** Descriptors built from the same name, type and writability are equal and hash
      alike whatever their managed flag, declaring types, getter handles and annotations. */
  lemma IdentityIgnoresAuxiliaryData<Ty, K, A, H, X>(valueType: Ty, name: string, writable: bool,
                                                        managed1: bool, declaredBy1: set<Ty>, getter1: H,
                                                        annotations1: ImmutableMap<K, A>, setterAnnotations1: ImmutableMap<K, A>,
                                                        managed2: bool, declaredBy2: set<Ty>, getter2: H,
                                                        annotations2: ImmutableMap<K, A>, setterAnnotations2: ImmutableMap<K, A>,
                                                        nameHash: string -> Int32, typeHash: Ty -> Int32)
    ensures var p := Of(valueType, name, managed1, writable, declaredBy1, getter1, annotations1, setterAnnotations1);
            var q := Of(valueType, name, managed2, writable, declaredBy2, getter2, annotations2, setterAnnotations2);
            && Equals<Ty, K, A, H, X>(p, OtherProperty(q))
            && HashCode(p, nameHash, typeHash) == HashCode(q, nameHash, typeHash)
  {
  }

  // ---------------------------------------------------------------- diagnostics

  const UnmanagedPrefix: string := "unmanaged "

  /** `toString`: `"unmanaged "` for an unmanaged property, then the name and the
      simple name of the type in parentheses. */
  function ToString<Ty, K(==), A, H>(p: ModelProperty<Ty, K, A, H>, simpleName: Ty -> string): (r: string)
    ensures IsManaged(p) ==> r == GetName(p) + "(" + simpleName(GetType(p)) + ")"
    ensures !IsManaged(p) ==> r == "unmanaged " + GetName(p) + "(" + simpleName(GetType(p)) + ")"
  {
    (if IsManaged(p) then "" else UnmanagedPrefix) + GetName(p) + "(" + simpleName(GetType(p)) + ")"
  }

  /** A name as Java allows for a property: no blank and no parenthesis. */
  predicate PlainName(name: string) {
    ' ' !in name && '(' !in name
  }

  /** For plain names the diagnostic string tells the managed flag and the name apart:
      two descriptors rendered alike agree on both. */
  lemma ToStringDeterminesManagedAndName<Ty, K, A, H>(p: ModelProperty<Ty, K, A, H>,
                                                     q: ModelProperty<Ty, K, A, H>,
                                                     simpleName: Ty -> string)
    requires PlainName(p.name) && PlainName(q.name)
    requires ToString(p, simpleName) == ToString(q, simpleName)
    ensures p.managed == q.managed && p.name == q.name
  {
    var s := ToString(p, simpleName);
    PrefixShowsUnmanaged(p, simpleName);
    PrefixShowsUnmanaged(q, simpleName);
    var pre := if p.managed then "" else UnmanagedPrefix;
    var xp := "(" + simpleName(p.valueType) + ")";
    var xq := "(" + simpleName(q.valueType) + ")";
    assert s == pre + (p.name + xp) && s == pre + (q.name + xq);
    assert p.name + xp == s[|pre|..] == q.name + xq;
    NameEndsAtFirstParenthesis(p.name, q.name, xp, xq);
  }

  /** For a plain name, the rendering starts with `"unmanaged "` exactly when the property is unmanaged. */
  lemma PrefixShowsUnmanaged<Ty, K, A, H>(p: ModelProperty<Ty, K, A, H>, simpleName: Ty -> string)
    requires PlainName(p.name)
    ensures !p.managed <==> UnmanagedPrefix <= ToString(p, simpleName)
  {
    var x := "(" + simpleName(p.valueType) + ")";
    if p.managed {
      assert ToString(p, simpleName) == p.name + x;
      PlainRenderingLacksPrefix(p.name, x);
    }
  }

  /** A plain name followed by `(` differs from `"unmanaged "` somewhere within its length. */
  lemma PlainRenderingLacksPrefix(name: string, x: string)
    requires PlainName(name) && |x| > 0 && x[0] == '('
    ensures !(UnmanagedPrefix <= name + x)
  {
    var k := if |name| < 9 then |name| else 9;
    assert (name + x)[k] != UnmanagedPrefix[k];
  }

  /** In a text made of a `(`-free prefix followed by `(`, the prefix ends at the first `(`. */
  lemma FirstParenthesisAt(a: string, x: string)
    requires '(' !in a && |x| > 0 && x[0] == '('
    ensures (a + x)[|a|] == '('
    ensures forall i | 0 <= i < |a| :: (a + x)[i] != '('
  {
  }

  /** A `(`-free prefix followed by text starting with `(` is determined by the whole. */
  lemma NameEndsAtFirstParenthesis(a: string, b: string, x: string, y: string)
    requires '(' !in a && '(' !in b
    requires |x| > 0 && x[0] == '(' && |y| > 0 && y[0] == '('
    requires a + x == b + y
    ensures a == b
  {
    FirstParenthesisAt(a, x);
    FirstParenthesisAt(b, y);
    assert |a| == |b|;
    assert a == (a + x)[..|a|] == (b + y)[..|b|] == b;
  }
}
