/**
 The host runtime's reflection facility, reduced to the metadata the
 discovery and registration pipeline reads. Every query is a total
 function supplied by the host; nothing here re-derives it.
 */
module Reflection {

  /** An opaque handle to a runtime type; two handles denote the same type
      exactly when they are equal (reference identity of `System.Type`). */
  datatype Type = Type(handle: nat)

  /** A value that may be absent; `None` plays the role of a null `Type`. */
  datatype Option<+T> = None | Some(value: T)

  /** The metadata the host exposes about every type.
      - `name` is the simple name (`Type.Name`), not an identity;
      - `interfaces` is the result of `GetInterfaces()`, in the host's own
        (depth-first) order, which the pipeline must not re-sort;
      - `isAssignableFrom(a, b)` is `a.IsAssignableFrom(b)`;
      - `isAssignableToGenericType(t, g)` is `t.IsAssignableToGenericType(g)`. */
  datatype Host = Host(
    name: Type -> string,
    isClass: Type -> bool,
    isAbstract: Type -> bool,
    isGenericType: Type -> bool,
    interfaces: Type -> seq<Type>,
    isAssignableFrom: (Type, Type) -> bool,
    isAssignableToGenericType: (Type, Type) -> bool)
}
