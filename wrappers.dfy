/** The optional value that Prisma's `findFirst` and the HTTP body `null` stand for. */
module Wrappers {
  datatype Option<+T> = None | Some(value: T)
}
