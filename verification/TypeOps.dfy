/** The operators of types (include/types/type_decls.h). */
module TypeOps {

  datatype TypeOp = Sum | Product | Implication
}
