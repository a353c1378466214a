/**
 * Records shared by the user table, the note table and the HTTP handlers of
 * the notes service (main.go).
 */
module Types {

  /** Go's `uint32`. */
  newtype uint32 = x: int | 0 <= x < 0x1_0000_0000

  const U32_MODULUS: nat := 0x1_0000_0000

  /**
   * Go's conversion `uint32(n)` of a non-negative `int`: keeps the low 32 bits,
   * so a value of 2^32 or more wraps around.
   */
  function ToU32(n: nat): (r: uint32)
    ensures n < U32_MODULUS ==> r as int == n
    ensures U32_MODULUS <= n < 2 * U32_MODULUS ==> r as int == n - U32_MODULUS
  {
    (n % U32_MODULUS) as uint32
  }

  /** A registered account; `email` is its key in the user table. */
  datatype User = User(id: uint32, name: string, email: string, password: string)

  /** A stored note; `id` is its key in the note table. */
  datatype Note = Note(id: uint32, text: string)

  /** Body of a POST /notes request. */
  datatype CreateNoteRequest = CreateNoteRequest(sid: string, note: string)

  /** Body of a DELETE /notes request. */
  datatype DeleteNoteRequest = DeleteNoteRequest(sid: string, id: uint32)

  /** Body of a POST /login request. */
  datatype LoginRequest = LoginRequest(email: string, password: string)

  /**
   * What JSON binding made of a request body: either it failed to decode
   * (`Malformed`) or it produced a value of the request type.
   */
  datatype Body<T> = Malformed | Parsed(value: T)

  datatype Option<T> = None | Some(value: T)
}
