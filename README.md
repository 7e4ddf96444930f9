# User store

This project models the in-memory user store of a small web front end. The store holds an ordered list of user records (`usuarios`). Each record is keyed by its `cedula`, a national identity number. The store offers five operations:

- `agregarUsuario` adds a record. It refuses a cedula that is already present, and it stamps the new record with `id`, `fechaRegistro` and `activo = true`.
- `buscarPorCedula` finds the first record with a given cedula.
- `eliminarUsuario` deletes the first record with a given cedula and reports whether it found one.
- `obtenerTotalUsuarios` counts the records.
- `limpiarUsuarios` empties the list.

Everything lives in module `UserStore` (`user_store.dfy`):

- Records are the datatype `User<P>`. The caller's own fields are the opaque payload `P`.
- The list is the field `users` of class `Store<P>`, which the methods reassign.
- `Valid()` is the store's invariant: no two records share a cedula.
- The searches `find` and `findIndex` and the one-element `splice` are the specification functions `Find`, `FindIndex` and `RemoveAt`. `Find` and `FindIndex` are defined separately, each as a scan from the front, and a lemma proves they agree. The lemmas beside them state what adding and deleting do to lookups and to the invariant.

The list read back from storage is not checked. The methods therefore do not assume `Valid()`. Each one describes its effect on any list, and states that `Valid()` is preserved when it held before. `Valid()` holds when the store starts empty or from a stored list whose cedulas are already distinct, and after `Clear`.

## Model

| member | source | states |
|---|---|---|
| `UserStore.FindIndex` | src/store/usuarios.js:35 | The result is -1 exactly when no record carries the cedula; otherwise it is the position of the first record that does. |
| `UserStore.Find` | src/store/usuarios.js:31 | The result is nothing exactly when no record carries the cedula; otherwise it is the record at the first matching position. |
| `UserStore.RemoveAt` | src/store/usuarios.js:37 | Removing position `i` shortens the list by one. Records before `i` stay where they were, and records after it move down one place. The multiset of records loses exactly the removed one. |
| `UserStore.FindAtFindIndex` | src/store/usuarios.js:31-35 | The two independent scans agree: `find` yields the record at the position `findIndex` reports, and nothing when it reports -1 (both follow from the two scans' own contracts, so neither is defined through the other). |
| `UserStore.FindInDistinct` | src/store/usuarios.js:30-32 | When cedulas are distinct, looking up the cedula of the record at position `i` reports position `i` and returns that record. |
| `UserStore.AppendFreshKeepsDistinct` | src/store/usuarios.js:15-26 | Appending a record whose cedula is absent keeps the cedulas pairwise distinct. |
| `UserStore.RemoveAtKeepsDistinct` | src/store/usuarios.js:34-39 | Removing any one record keeps the cedulas pairwise distinct. |
| `UserStore.FindAfterAppend` | src/store/usuarios.js:21-31 | After a record with a fresh cedula is appended, looking up that cedula finds the new last record, carrying all its fields. |
| `UserStore.FindOtherAfterAppend` | src/store/usuarios.js:21-26 | Appending a record does not change what a lookup of any other cedula returns. |
| `UserStore.FindIndexAfterRemoveAt` | src/store/usuarios.js:35-37 | After the record at position `i` is removed, the first record with any other cedula is found one place lower if it came after `i` and at the same place if it came before; a cedula absent before stays absent. |
| `UserStore.FindOtherAfterRemove` | src/store/usuarios.js:34-39 | Deleting the first record with cedula `c` does not change what a lookup of any other cedula returns, even when cedulas repeat. |
| `UserStore.RemoveLeavesNone` | src/store/usuarios.js:34-39 | When cedulas are distinct, deleting the record with cedula `c` leaves no record with that cedula. |
| `UserStore.RemoveUndoesAppend` | src/store/usuarios.js:15-41 | Deleting the cedula of a record just added removes the position `findIndex` reports for it, and that restores the list exactly as it was before the add. |
| `UserStore.Store.constructor` | src/store/usuarios.js:3-8 | The store starts from the list read back from storage, or from the empty list when nothing was stored. The invariant holds after an empty start, and after a stored start exactly when the stored cedulas are distinct. |
| `UserStore.Store.Add` | src/store/usuarios.js:15-28 | Fails with `DuplicateCedula` exactly when some record already has the cedula, and then leaves the list unchanged. On success, the old list is an unchanged prefix, and the one new last record carries the caller's cedula and fields, the given `id` and `fechaRegistro`, and `activo == true`. It returns the caller's record, not the stamped one. The invariant is preserved. |
| `UserStore.Store.FindByCedula` | src/store/usuarios.js:30-32 | Returns nothing exactly when no record has the cedula; otherwise it returns the first record that does. Under the invariant, that is the only such record. The list is not changed. |
| `UserStore.Store.Remove` | src/store/usuarios.js:34-41 | Returns true exactly when some record has the cedula. It then removes exactly the first such record, the length drops by one, and the other records keep their order. Otherwise it returns false and the list is unchanged. The invariant is preserved, and under it no record with the cedula remains. |
| `UserStore.Store.Count` | src/store/usuarios.js:43 | The count is the length of the list. |
| `UserStore.Store.Clear` | src/store/usuarios.js:45-48 | Afterwards the list is empty, so the count is 0, and the invariant holds. |

## Left out

- Persistence is not modelled. This covers reading the stored list at start-up, the deep watcher that writes the whole list back after every change, and the removal of the stored entry on clear. Parsing and serialising are foreign library calls. The constructor takes the already-parsed stored list as an optional argument. An empty stored string, which the source treats like a missing one, is covered by passing `None`.
- Behaviour on malformed stored data is not modelled; the source leaves it undefined.
- The log line written after each save is not modelled.
- The clock values are not modelled. `Add` takes `id` (the millisecond timestamp) and `fechaRegistro` (the ISO-8601 string) as parameters.
- `cedula` is a string compared with ordinary equality. The loose typing of JavaScript values under `===`, and records with no `cedula` at all, are not modelled.
- The caller's other fields are an opaque payload `P`, kept apart from the three injected fields. In the source, a caller field named `id`, `fechaRegistro` or `activo` is overwritten by the injected value. In the model, the stored `id`, `fechaRegistro` and `activo` are always the injected ones too, but a copy of the caller's own value may remain inside the payload.
- The list is shared mutable state that any caller may change directly. Changes made outside the five operations are not modelled.
- Aliasing of the list is not modelled. The source appends and deletes in place on the exported array, but clearing replaces that array with a new empty one. A caller holding the old array therefore sees adds and deletes made before the clear, but neither the clear nor any change after it. The model's list is a value, so it cannot show this.
