# Daily hours log: record controller and training chart

This project models the core of a small mobile app that logs daily hours
of study (`estudo`), work (`trabalho`) and training (`treino`). The model
has three modules:

- `Registros` (registros.dfy) defines the record and the list operations the
  controller builds its new collections with:
  - the field update done by `map` on the record being edited;
  - the delete done by `filter` on the id;
  - the first-match lookup done by `find` for the form's edit record;
  - the stable comparator sort (`Array.prototype.sort` with `(a, b) => a.f - b.f`),
    modelled as an insertion sort that keeps ties in input order.
- `App` (app.dfy) is the controller, written as a class `AppState`. Its fields
  are the component's state: `registros`, `carregando`, `editingId` and
  `ordenacao`. Its methods are the handlers, the sort buttons and the two
  derived views (the displayed list and the record handed to the form).
- `Grafico` (grafico.dfy) is the chart component as a pure function. With
  fewer than two records (or none at all) it yields the notice. Otherwise it
  orders a copy by id and yields one label and one `treino` point per record.

Hours are `real` and ids are `int`. The clock value for a new record's id,
the date string stored in `data`, and the day/month label the chart derives
from an id are all parameters.

In these places the code behaves differently from what one might expect, and the model follows the code:

- The edit branch is taken on the JavaScript truthiness of `editingId`
  (App.js:53). An edit target of `0` is falsy, so saving while "editing" a
  record with id 0 appends a new record (`App.EditarIdZero`).
- The edit branch updates every record carrying the target id, not just one.
  If no record carries it, the collection is left unchanged and nothing is
  appended.
- Delete removes every record with the id. It removes exactly one only when
  ids are unique (`Registros.RemoverPorIdUnico`).
- Delete does not clear `editingId` (App.js:76-79). A save after deleting the
  record under edit reports "updated", changes nothing and drops the typed
  values (`App.SalvarAposRemoverEditado`, `App.EditarRemoverSalvar`).
- `recentes` orders by ascending id, so the oldest record comes first.
- `ordenacao` is a string in the source. Only the four buttons
  (App.js:150-153) and the initial value (App.js:27) ever set it, so it is
  modelled as a four-valued datatype. The final `else` of the display sort is
  then exactly the `recentes` case.
- The chart orders its input by id again. With unique ids it is therefore the
  same whatever sort mode the list uses (`App.AppState.GraficoExibido`).

While loading, the component renders only a spinner (App.js:115-121). So
every handler and derived view of `AppState` requires that loading has
finished.

Dafny sequences are values. The display sort and the chart's sort work on
copies, and `RegistrosExibidos` and `GraficoExibido` have no `modifies`
clause, so the stored order of `registros` cannot change through them.

## Model

| member | source | states |
|---|---|---|
| `Registros.AtualizarCampos` | App.js:54-58 | The update of the edited record builds a new list of the same length, and every position keeps its `id` and `data`. |
| `Registros.AtualizarCamposEm` | App.js:54-58 | At every position, a record whose id matches the edit target gets the three new values and keeps its `id` and `data`. Every other record is left exactly as it was. Length and order are unchanged. |
| `Registros.AtualizarCamposAusente` | App.js:53-59 | Editing an id that no record carries gives back the same collection: nothing is changed or appended. |
| `Registros.AtualizarCamposIdempotente` | App.js:54-58 | Applying the same edit twice gives the same collection as applying it once. |
| `Registros.AtualizarCamposNaoNegativos` | App.js:49-58 | With non-negative new values, the edit keeps every stored hour field non-negative. |
| `Registros.AtualizarCamposIdsUnicos` | App.js:54-58 | The edit never changes an id, so a collection with unique ids keeps them unique. |
| `Registros.AtualizarCamposBusca` | App.js:54-58 | After an edit of a present id, the first record with that id holds the new values and the `data` of the record it replaced. |
| `Registros.RemoverPorId` | App.js:77 | A record is in the result exactly when it was in the input and its id differs from the deleted id. The result is never longer than the input. |
| `Registros.RemoverPorIdConcat` | App.js:77 | Delete distributes over concatenation, so the surviving records keep their original order. |
| `Registros.RemoverPorIdAusente` | App.js:76-79 | Deleting an id that no record carries is a no-op. |
| `Registros.RemoverPorIdUnico` | App.js:77 | With unique ids, deleting a present id shortens the collection by exactly one. |
| `Registros.RemoverPorIdIdsUnicos` | App.js:77 | Delete keeps ids unique. |
| `Registros.BuscarPorId` | App.js:145 | The lookup is empty exactly when no record carries the id. Otherwise it is the record at the first position carrying the id. |
| `Registros.BuscarPorIdUnico` | App.js:145 | With unique ids, looking up a stored record's own id finds that record. |
| `Registros.Inserir` | App.js:127-133 | One insertion step of the stable sort: `x` goes before the first element whose key is not smaller, and the result holds exactly the input's records plus `x` (equal multiset). |
| `Registros.OrdenarPor` | App.js:124-134 | The stable comparator sort used for the display list (and, by id, for the chart's copy). Its result is a permutation (equal multiset) of its input. |
| `Registros.OrdenarPorCorreto` | App.js:124-134 | The sorted copy is non-decreasing in the selected field. |
| `Registros.OrdenarPorEstavel` | App.js:124-134 | The sort is stable: for every key value, the records with that key appear in the same relative order as in the input. |
| `Registros.OrdenarPorIdIgnoraOrdem` | components/Grafico.js:15 | With unique ids, sorting any permutation of a collection by id gives the same sequence. |
| `Grafico.OrdenadosPorId` | components/Grafico.js:15 | The chart's ordered copy is a permutation of its input and is non-decreasing by id. |
| `Grafico.Renderizar` | components/Grafico.js:6-12 | The notice and no chart data are produced exactly when the list is missing or has fewer than 2 records. |
| `Grafico.LinhaSegueOrdemDeId` | components/Grafico.js:15-23 | With at least 2 records, there is an id-ordered permutation of the input such that there is one label and one point per record, and label i and point i come from its i-th record (`rotulo(id)` and `treino`). |
| `Grafico.RenderizarIgnoraOrdem` | components/Grafico.js:15 | With unique ids, the chart does not depend on the order its input comes in. |
| `App.AlgumNegativo` | App.js:49 | The save guard rejects exactly the values that could not be stored in a record with non-negative hours. |
| `App.EmEdicao` | App.js:53 | The JavaScript truthiness of the edit target, which picks the update branch. It holds only when a target is set, and never for the id 0. |
| `App.CriterioDe` | App.js:126-134 | Each sort mode selects its field's comparator, and a mode orders by id exactly when it is `recentes`. |
| `App.SalvarAposRemoverEditado` | App.js:53-59 | After deleting an id, the edit branch for that id leaves the remaining collection unchanged and appends nothing. |
| `App.IdsUnicosAnexar` | App.js:62-69 | Appending a record whose id is not yet used keeps ids unique. |
| `App.AppState.constructor` | App.js:24-27 | The initial state has no records, is loading, has no edit target and uses the `recentes` sort mode. |
| `App.AppState.ConcluirCarga` | App.js:29-36 | The startup load replaces the collection with the loaded records and ends loading. |
| `App.AppState.HandleSave` | App.js:44-74 | Callable only once loading has finished. Any negative value: the status is the error, and `registros` and `editingId` are unchanged. Truthy edit target: every record with that id gets the new values and keeps `id`/`data`. Otherwise exactly one new record is appended after the unchanged old list. After any accepted save `editingId` is none. The save keeps the non-negative invariant and, when the new id is fresh, unique ids. |
| `App.AppState.HandleDelete` | App.js:76-79 | The collection becomes the filter of the old one. `editingId` and the sort mode are untouched. Non-negativity and unique ids are kept. |
| `App.AppState.HandleEdit` | App.js:81-83 | The edit target becomes the record's id. The records are not touched. |
| `App.AppState.HandleCancel` | App.js:85-87 | The edit target is cleared. The records are not touched. |
| `App.AppState.SetOrdenacao` | App.js:150-153 | The sort mode becomes the chosen one. Records and edit target are unchanged. |
| `App.AppState.RegistrosExibidos` | App.js:124-134 | The displayed list is a permutation of `registros`, is non-decreasing in the mode's field (id for `recentes`), and keeps ties in stored order. |
| `App.AppState.RegistroEmEdicao` | App.js:145 | With no edit target the form gets none. Otherwise it gets none exactly when no record carries the target, and else the first record carrying it. |
| `App.AppState.GraficoExibido` | App.js:157 | The chart fed with the displayed list shows the notice exactly when there are fewer than 2 records. With unique ids it equals the chart of the stored collection, whatever the sort mode. |
| `App.EditarRemoverSalvar` | App.js:53-79 | Edit a nonzero id, delete it, then save non-negative values: the save reports an update but the collection stays as the delete left it. |
| `App.EditarIdZero` | App.js:53 | Edit a record with id 0, then save: the falsy target sends the save to the append branch. |
| `App.CenarioExemplo` | App.js:44-87 | The worked example: save, a rejected negative save, edit and save, then delete. Each step produces the exact expected collection and status. |

## Left out

- Text-to-number parsing (`parseFloat` after replacing `,` with `.`) is not modelled. The handlers take the parsed values as `real`. An empty field gives NaN, which passes the `< 0` check and is then stored. That case is not modelled, because `real` has no NaN.
- Persistence is not modelled: the store module, the save effect that writes the whole collection after every change, and the load's I/O. Only the load's effect on state is modelled (`ConcluirCarga`).
- Export (web download, native share sheet, the empty-collection and no-sharing alerts) is not modelled. It is platform I/O.
- Alerts are reduced to the status `HandleSave` returns. The delete's success alert is not modelled.
- Minting ids from the clock, the `pt-BR` date string and the chart's day/month labels are not modelled. Each one is a parameter (`agora`, `hoje`, `rotulo`), because each depends on the clock or the timezone.
- The form component (text state and pre-filling) is not modelled. It is UI text state that forwards strings to the save handler.
- React rendering is not modelled: the loading spinner, styles, the list component and the line chart's configuration.
- `App.AppState.HandleSave`: unique ids are guaranteed only when the given `agora` is not already used as an id. The source takes it from the clock and never checks for a collision.
