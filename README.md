# Menu category ordering

A model of the category half of a restaurant-menu service. Categories are
rows `{id, language, title, description, isAvailable, imageUrl, position}`;
the categories of one language form a list shown in the order of their
integer `position`. The service creates categories at the end of their
language, overwrites their fields, moves one category to a new position
(renumbering the ones it displaces) and deletes categories.

Layout:

- `errors.dfy` — module `Errors`: the error kinds the service raises
  (`NotFound`, `Conflict`, `Internal`) and `Result`/`Option`.
- `categories.dfy` — module `Categories`: the row and request records, the
  unique-id invariant of the table, selection by language and lookup by id.
- `positions.dfy` — module `Positions`: the pure position arithmetic. The
  per-row move rule (`MovedPosition`, `Shifted`), its application to a
  language's list (`Remap`), the maximum used on create (`LastPosition`),
  and density (`Dense`: positions are exactly 1..N, each once) with the
  lemmas that a move to a target in 1..N keeps a dense language dense,
  that a move to the current position changes nothing, and that moving
  back undoes a move when no other category shares the moving one's old
  position.
- `store.dfy` — module `Store`: the class `MenuCategoryStore`, whose field
  `rows` is the table and whose methods are the service operations, plus
  the table-level lemmas (every language stays dense under a move to a
  target in 1..N and under a create; a delete removes one occurrence of
  the deleted position and renumbers nothing, leaving a gap unless the
  row held its language's largest position or shared its position with
  another row; an update
  that changes the language keeps the old position).

Error behaviour follows the code. The service's `catch` blocks re-raise an
error only when it is an `AppError`, but the `AppError` factories in
src/errors/app-error.ts return a different exception class, so that test
never holds: a not-found raised inside a `try` (the reorder's lookup, the
lookup by id) and the database's own "record not found" on update and
delete all surface as `Internal`. The service imports `AppError` from
`src/utils/errors/app-error`, which is not part of this model; the
`Internal` outcome assumes that module is the same as
src/errors/app-error.ts. Were its `AppError` the class of the thrown
errors, the lookup by id and the reorder would report `NotFound` instead;
either way an unknown id fails before anything is written. The
duplicate-title check on create runs outside the `try`, so it surfaces as
`Conflict`. Row ids, which the database generates, are naturals handed out
by the store's counter `nextId`.

The code differs from a dense-positions design in three places, and the
model follows the code: a delete renumbers nothing, so it leaves a gap
unless the deleted row held its language's largest position or shared its
position with another row (`Store.DeleteLeavesPositions`, `Store.DeleteMiddleLeavesGap`); a create
takes the largest position plus one, which equals the count plus one
whenever the language is dense (`Positions.LastPositionOfDense`), but may
differ from it once a delete or an update has left a gap or a shared
position; a move does not
range-check its target and reports an unknown id as `Internal`, not as
not-found. A move writes the position of every category of the language,
not only the ones that change.

## Model

| member | source | states |
|---|---|---|
| `Categories.OfLanguage` | src/menu-category/menu-category.service.ts:46-58 | the categories of a language are exactly the table rows with that language, and no more rows than the table has |
| `Categories.IndexOf` | src/menu-category/menu-category.service.ts:135-139 | the lookup by id finds a row carrying that id, or reports that no row carries it |
| `Store.MenuCategoryStore.CategoryById` | src/menu-category/menu-category.service.ts:60-78 | succeeds exactly when some row has the id, returning such a row; otherwise fails with `Internal` (the not-found raised inside the `try` is caught and replaced) |
| `Positions.LastPosition` | src/menu-category/menu-category.service.ts:87-88 | 0 for a language with no categories, otherwise the largest position present: no category is above it and some category holds it |
| `Store.MenuCategoryStore.CreateCategory` | src/menu-category/menu-category.service.ts:80-107 | a title already used in the language gives `Conflict` and leaves the table and id counter unchanged; otherwise exactly one row is appended, with a fresh id, the request's fields (an empty image URL stored as none) and position last-position-plus-one of its language; existing rows are untouched |
| `Positions.AppendKeepsDense` | src/menu-category/menu-category.service.ts:87-97 | appending at last-position-plus-one keeps a language whose positions are 1..N dense |
| `Positions.LastPositionOfDense` | src/menu-category/menu-category.service.ts:87-88 | in a dense language the largest position is the number of categories, so max+1 and count+1 agree there |
| `Store.AppendKeepsLanguagesDense` | src/menu-category/menu-category.service.ts:87-97 | if every language of the table is dense, appending a row at its language's last-position-plus-one keeps every language dense |
| `Positions.Remap` | src/menu-category/menu-category.service.ts:146-162 | keeps the list's length, order, ids and every field but position; the moving category gets the target; on a move down the others in (old, target] step back by one, on a move up those in [target, old) step forward by one; all others, and everything when old equals target, keep their position |
| `Positions.MoveToSamePositionIsNoOp` | src/menu-category/menu-category.service.ts:146-162 | moving a category to the position it holds leaves the list unchanged |
| `Positions.RemapKeepsDense` | src/menu-category/menu-category.service.ts:146-162 | if the language's positions are exactly 1..N and the target is in 1..N, they are exactly 1..N again after the remap |
| `Positions.MoveBackRestores` | src/menu-category/menu-category.service.ts:146-162 | moving a category to a target and then back to its old position restores the whole list, when no other category shared its old position |
| `Positions.DenseIsExactRange` | src/menu-category/menu-category.service.ts:146-162 | a dense language uses every position 1..N, so the set of its positions is exactly 1..N |
| `Store.MoveInStore` | src/menu-category/menu-category.service.ts:141-171 | the table after a move keeps its length and ids; rows only change position, and rows of other languages do not change at all |
| `Store.MoveInStoreByLanguage` | src/menu-category/menu-category.service.ts:141-171 | after a move, the moving language's rows are the remap of its rows before, and every other language's rows are the same as before |
| `Store.MenuCategoryStore.SetPosition` | src/menu-category/menu-category.service.ts:166-169 | one update by id writes the new position into the row with that id and changes nothing else |
| `Store.MenuCategoryStore.WritePositions` | src/menu-category/menu-category.service.ts:164-171 | writing every remapped category back by id turns each row it names into its moved version and leaves every other row unchanged |
| `Store.MenuCategoryStore.ChangePosition` | src/menu-category/menu-category.service.ts:130-183 | an unknown id fails with `Internal` before any write; otherwise the table becomes the move of the category's own language from its old position to the target and the moved row is returned with the target position; ids and the id counter are unchanged |
| `Store.MoveKeepsLanguagesDense` | src/menu-category/menu-category.service.ts:141-171 | if every language is dense and the target is within 1..N of the moving category's language, every language is dense after the move |
| `Store.MoveToCurrentPositionKeepsTable` | src/menu-category/menu-category.service.ts:146-171 | moving a category to its current position leaves the whole table as it was |
| `Store.MoveBackRestoresTable` | src/menu-category/menu-category.service.ts:146-171 | moving a category away and back restores the whole table, when no other category of its language shared its position |
| `Store.Updated` | src/menu-category/menu-category.service.ts:112-121 | each non-empty request field (set availability flag) replaces the stored one and each empty one leaves it; id and position are never changed, even when the language is |
| `Store.MenuCategoryStore.UpdateCategory` | src/menu-category/menu-category.service.ts:109-128 | an unknown id fails with `Internal` and changes nothing; otherwise only the row with that id is replaced by its updated version, which is returned |
| `Store.UpdateLanguageCanDuplicatePosition` | src/menu-category/menu-category.service.ts:114-120 | an update that moves a category to another language keeps its position, which can duplicate a position already used there |
| `Store.MenuCategoryStore.DeleteCategory` | src/menu-category/menu-category.service.ts:185-197 | an unknown id fails with `Internal` and changes nothing; otherwise exactly that row is removed, the others keep their order and values, and a success status is returned |
| `Store.DeleteRemovesOnePosition` | src/menu-category/menu-category.service.ts:185-190 | after a delete, the language's positions, counted with multiplicity, are those before minus one occurrence of the deleted row's position: nothing is renumbered, with no condition on the positions held before |
| `Store.DeleteLeavesPositions` | src/menu-category/menu-category.service.ts:185-190 | when no two categories of the language share a position, the set of the language's positions after a delete is the set before minus the deleted row's position |
| `Store.DeleteMiddleLeavesGap` | src/menu-category/menu-category.service.ts:185-190 | deleting the middle one of positions 1, 2, 3 leaves positions 1 and 3, which are not dense, and the next create takes position 4 |

## Left out

- Fetching the full menu of a language with its items (`getFullMenuByLanguage`) is a joined, ordered database query with no computation of its own; it is not modelled.
- `Categories.OfLanguage`: the database returns a language's categories sorted by position; the model keeps table order. The results do not depend on it: the title test and the maximum ignore order, the remap works row by row and the writes go by id.
- Database failures (connection loss, an invalid language code rejected by the enum column, a failed transaction) would all surface as `Internal`; the model's store never fails, so only the not-found paths produce `Internal`.
- The reorder's transaction and its concurrent `Promise.all` of updates are modelled as one atomic step that performs the writes one after another; isolation between concurrent requests is not modelled.
- Logging is not modelled.
- The schema default of `isAvailable` is not part of this model; a row created without the flag stores `None`.
- Row ids are naturals from a counter rather than database-generated strings.
- Store.MenuCategoryStore.ChangePosition: the `Internal` outcome for an unknown id (and that of `Store.MenuCategoryStore.CategoryById`) assumes the imported `src/utils/errors/app-error` is src/errors/app-error.ts, whose factories do not return `AppError` instances; under a different module they would return `NotFound`, and the absence of writes holds either way.
- The menu-item service, the transport controllers, error factories, environment validation and process bootstrap are not part of this model.
