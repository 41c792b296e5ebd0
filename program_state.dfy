/** The part of the transpiler's program state (`program.Program`) that the type
    resolver reads. It is filled elsewhere as declarations are discovered; the
    resolver only looks things up in it. */
module ProgramState {

  datatype Registry = Registry(
    /** `TypedefType`: typedef name to the spelling of its underlying type. */
    typedefs: map<string, string>,
    /** `GetBaseTypeOfTypedef`: typedef name to its base (struct or union) type. */
    typedefBases: map<string, string>,
    /** `EnumTypedefName`: the typedef names that stand for an enum. */
    enumTypedefs: set<string>,
    /** `IsTypeAlreadyDefined`: the names already declared in the output. */
    defined: set<string>,
    /** `ImportType`: qualifies a Go type name (for a package-qualified name it
        also records the import); an arbitrary function here. */
    importType: string -> string)

  /** A registry that knows nothing and qualifies nothing. */
  function EmptyRegistry(): (reg: Registry)
    ensures reg.typedefs == map[] && reg.typedefBases == map[]
    ensures reg.enumTypedefs == {} && reg.defined == {}
    ensures forall name :: reg.importType(name) == name
  {
    Registry(map[], map[], {}, {}, name => name)
  }
}
