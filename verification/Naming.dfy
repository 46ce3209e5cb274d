/** The two library functions that choose identifiers, left open: ToCamelCase of the go-ethereum
    abi package is any function, ResolveNameConflict any function that avoids the used names. */
module Naming {

  datatype Naming = Naming(camel: string -> string, resolve: (string, set<string>) -> string) {

    ghost predicate Valid() {
      forall name, used :: resolve(name, used) !in used
    }
  }
}
