# ModelProperty: the property descriptor of Gradle's managed model types

This project models `ModelProperty`, the immutable descriptor Gradle's model
schema keeps for one property of a managed type. A descriptor holds:

- the property's name and value type (a `ModelType` token);
- the `managed` and `writable` flags;
- the set of supertypes that declare the property;
- snapshots of the getter and setter annotation maps;
- a handle that runs the getter on an instance.

The model proves these properties:

- The factory round-trips its inputs through the accessors.
- Annotation queries read only the getter annotations.
- A null instance is rejected before the getter runs.
- `equals` is deliberately narrow. It compares only name, type and writability.
- `hashCode` is consistent with `equals`. It equals the closed polynomial
  `31 * (31 * h(name) + h(type)) + h(writable)`, wrapped to 32 bits once.
- For names with no blank and no `(`, the `toString` text shows both the managed flag and the
  name. Other names can collide: a managed property named `unmanaged x` renders like an
  unmanaged property named `x`.

The files:

- `java_lang.dfy` (module `JavaLang`): Java `int` arithmetic with two's-complement
  wrap-around, `Boolean.hashCode` (1231 and 1237), nullable references, and calls that
  return or throw.
- `immutable_collections.dfy` (module `ImmutableCollections`): the immutable map snapshot.
  It keeps the caller's entries in iteration order, at most one per key. It has `get`,
  `containsKey` and `values`.
- `model_property.dfy` (module `Schema`): the descriptor and its operations.

The descriptor's collaborators are generic:

- `ModelType` tokens, annotation kinds, annotation instances and getter handles are type
  parameters.
- `String.hashCode`, `ModelType.hashCode`, `ModelType.getSimpleName` and the getter
  handle's `invoke` are function parameters.

## Model

| member | source | states |
|---|---|---|
| `Schema.Of` | subprojects/model-core/src/main/java/org/gradle/model/internal/manage/schema/ModelProperty.java:44-80 | `getName`, `getType`, `isManaged`, `isWritable`, `getDeclaredBy`, `getAnnotations` and `getSetterAnnotations` of the built descriptor give back exactly the factory's inputs; as values, the snapshots cannot be reached by later changes on the caller's side |
| `Schema.QueriesUseSuppliedSnapshot` | subprojects/model-core/src/main/java/org/gradle/model/internal/manage/schema/ModelProperty.java:44-94 | a built descriptor answers `isAnnotationPresent`/`getAnnotation` from the getter map passed in, and reads a non-null instance through the getter handle passed in |
| `Schema.GetPropertyValue` | subprojects/model-core/src/main/java/org/gradle/model/internal/manage/schema/ModelProperty.java:82-86 | a null instance throws `NullPointerException("instance")`; for a non-null instance the value returned is the one the getter handle returns, a read succeeds exactly when the handle returns, and an exception the handle throws is passed on as that same exception, never replaced by the null-instance failure |
| `Schema.NullInstanceNeverReachesGetter` | subprojects/model-core/src/main/java/org/gradle/model/internal/manage/schema/ModelProperty.java:83-85 | the null check comes before the getter: the outcome for a null instance is a throw, and it is the same whatever the getter handle would do |
| `Schema.IsAnnotationPresent` | subprojects/model-core/src/main/java/org/gradle/model/internal/manage/schema/ModelProperty.java:88-90 | true exactly when the kind is a key of the getter-annotation map |
| `Schema.GetAnnotation` | subprojects/model-core/src/main/java/org/gradle/model/internal/manage/schema/ModelProperty.java:92-94 | non-null exactly when `isAnnotationPresent` holds, and then the getter map's entry for that kind; null (never a failure) for an absent kind |
| `Schema.GetAnnotations` | subprojects/model-core/src/main/java/org/gradle/model/internal/manage/schema/ModelProperty.java:96-98 | one value per getter-map entry, in entry order, each being what `getAnnotation` answers for that entry's kind |
| `Schema.FoundAnnotationIsListed` | subprojects/model-core/src/main/java/org/gradle/model/internal/manage/schema/ModelProperty.java:88-98 | every annotation `getAnnotation` finds is among `getAnnotations` |
| `Schema.GetterAndSetterAnnotationsIndependent` | subprojects/model-core/src/main/java/org/gradle/model/internal/manage/schema/ModelProperty.java:88-105 | replacing the setter map changes none of the getter-annotation queries nor the value read, and the new map is what `getSetterAnnotations` returns; replacing the getter map leaves `getSetterAnnotations` unchanged |
| `Schema.Equals` | subprojects/model-core/src/main/java/org/gradle/model/internal/manage/schema/ModelProperty.java:107-119 | true for the same object, false for null and for another class, and for another descriptor true exactly when name, type and `writable` agree |
| `Schema.IdentityShortCutAgrees` | subprojects/model-core/src/main/java/org/gradle/model/internal/manage/schema/ModelProperty.java:109-118 | the identity short-cut gives the same answer as the field comparison of a descriptor with itself |
| `Schema.EqualsIsEquivalence` | subprojects/model-core/src/main/java/org/gradle/model/internal/manage/schema/ModelProperty.java:107-119 | equality between descriptors is reflexive, symmetric and transitive |
| `Schema.IdentityIgnoresAuxiliaryData` | subprojects/model-core/src/main/java/org/gradle/model/internal/manage/schema/ModelProperty.java:107-127 | two descriptors built with the same name, type and `writable` are equal and hash alike, whatever their `managed` flags, declaring types, getter handles and annotations |
| `Schema.EqualsImpliesEqualHashCodes` | subprojects/model-core/src/main/java/org/gradle/model/internal/manage/schema/ModelProperty.java:107-127 | equal descriptors have equal hash codes |
| `Schema.HashCode` | subprojects/model-core/src/main/java/org/gradle/model/internal/manage/schema/ModelProperty.java:121-127 | the step-by-step `int` computation, wrapping after each `31 *` and `+`, with 1231 for a writable property and 1237 otherwise, equals `31 * (31 * h(name) + h(type)) + h(writable)` computed exactly and wrapped to 32 bits once |
| `Schema.ToString` | subprojects/model-core/src/main/java/org/gradle/model/internal/manage/schema/ModelProperty.java:129-132 | a managed property renders as `name(SimpleTypeName)`; an unmanaged one renders as `unmanaged name(SimpleTypeName)` |
| `Schema.PrefixShowsUnmanaged` | subprojects/model-core/src/main/java/org/gradle/model/internal/manage/schema/ModelProperty.java:131 | for a name with no blank and no `(`, `toString` starts with `"unmanaged "` exactly when the property is unmanaged |
| `Schema.ToStringDeterminesManagedAndName` | subprojects/model-core/src/main/java/org/gradle/model/internal/manage/schema/ModelProperty.java:129-132 | for such names, two descriptors with the same `toString` text agree on the managed flag and on the name |
| `ImmutableCollections.Get` | subprojects/model-core/src/main/java/org/gradle/model/internal/manage/schema/ModelProperty.java:93 | the snapshot's lookup is non-null exactly for keys of the map, and then it is the value of that key's entry |
| `ImmutableCollections.Values` | subprojects/model-core/src/main/java/org/gradle/model/internal/manage/schema/ModelProperty.java:97 | the snapshot's values: one per entry, in entry order |
| `ImmutableCollections.LookupsAreValues` | subprojects/model-core/src/main/java/org/gradle/model/internal/manage/schema/ModelProperty.java:93-97 | every value a lookup answers is among the map's values |
| `ImmutableCollections.ValuesAreLookups` | subprojects/model-core/src/main/java/org/gradle/model/internal/manage/schema/ModelProperty.java:93-97 | the value at each position is what a lookup of that entry's key answers |
| `JavaLang.Wrap` | subprojects/model-core/src/main/java/org/gradle/model/internal/manage/schema/ModelProperty.java:123-126 | narrowing to `int` gives a 32-bit value that agrees with the exact result modulo 2^32 |
| `JavaLang.MulAddWrapsOnce` | subprojects/model-core/src/main/java/org/gradle/model/internal/manage/schema/ModelProperty.java:124-125 | Java's `k * a + c`, wrapping after each operation, equals the exact `k * a + c` wrapped once, also when `a` is itself a wrapped value |

## Left out

- `DefaultRoutesCompileSpec` (platform-play): a constructor that stores its arguments, plus getters. It has no logic, and its types are file and fork options.
- The getter handle's internals: weak class references, re-resolving the method, a stale reference after class unloading, and reflective invocation. `WeaklyTypeReferencingMethod` is not part of this model. The handle is an opaque value, run through an `invoke` parameter that returns or throws. A stale reference is one more exception the handle may throw.
- `GetPropertyValue`: Java lets the handle's own exception propagate unchanged. The model tags it `GetterFailed` only to tell it apart from the null-instance failure. An instance of the wrong runtime type makes the reflective call throw; in the model that is one more exception the handle's `invoke` may return.
- The internals of `ModelType`: its `equals` is Dafny equality on the type parameter. `hashCode` and `getSimpleName` are function parameters.
- `String.hashCode` is a function parameter, not the JDK polynomial over UTF-16 code units.
- Null fields, null collection arguments and null collection elements. Java would throw a `NullPointerException` for a null name in `equals` or `hashCode`, and Guava's `copyOf` rejects a null collection and null elements, keys and values. Dafny values are never null.
- Aliasing. The Java constructor copies the caller's set and maps, so later mutation by the caller cannot reach the descriptor. Dafny sets and sequences are immutable values, so this holds by construction. No mutable caller-side collection is modelled.
- `Schema.Of`: the declaring-type set is a Dafny `set`, so the iteration order of Guava's `ImmutableSet` is not modelled. Only membership is.
- Annotation objects and `Cast.uncheckedCast`: annotation kinds and instances are type parameters, and `getAnnotation` returns the stored instance as it is.
- `@ThreadSafe`: the descriptor is an immutable value, so there is no concurrency to model.
- The factory has no explicit checks: it accepts an empty declaring-type set and a null name, type or getter, so the model states no such invariant. A null declaring-type set or annotation map makes Guava's `copyOf` throw `NullPointerException`.
