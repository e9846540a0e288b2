/** Small value types shared by every layer of the catalog backend. */
module Values {

  /** java.util.Optional, and the null a JPA lookup may hand back. */
  datatype Option<+T> = None | Some(value: T)

  /** A store-assigned primary key (a Java Long; its 64-bit range is not modelled). */
  type Id = int

  /** A point in time (java.time.Instant), read from the clock by the caller. */
  type Instant = int
}
