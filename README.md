# Tea store model

A Dafny model of the tea store of `devopslesson`: a collection of tea records
(`id`, `name`, `description`) kept in `data.json`. The store offers three
operations. `getTeaByName` looks a record up by exact name. `saveTea` loads
the collection, refuses a record whose name or id is already stored, and
otherwise appends it and rewrites the whole collection. `generateNewTeaId`
hands out a positive id.

The implementation file `saver.js` is not part of this model. The behaviour
modelled is the one the test suite `tea.test.js` asserts for it.

- `wrappers.dfy`, module `Wrappers`: `Option` (JavaScript's `undefined` as
  `None`) and `Result` (a thrown error as `Err`).
- `decimal.dfy`, module `Decimal`: how the id is written into the error
  message (`${id}`). The module also proves that this rendering can be read
  back, so different ids give different messages.
- `saver.dfy`, module `Saver`:
  - the `Tea` record and the `SaveError` kinds with their message texts;
  - the pure search `FindByName`, the id check `ContainsId` and the save rule
    `Save` on a sequence of records;
  - the class `TeaStore`, whose field `teas` stands for the file's contents.
    An absent file is the empty sequence. `SaveTea` updates that field in
    place.
  - the `Scenario…` client methods. Each replays one test case against the
    class and asserts its outcome; two more assert the exact error texts.

The invariant proved is `Unique`: no two records share a name and no two
share an id. It holds after every successful save (`SavePreservesUnique`,
`TeaStore.SaveTea`) and after any sequence of saves (`SaveAllPreservesUnique`).

## Model

| member | source | states |
|---|---|---|
| `Saver.FindByName` | tea.test.js:16-27 | the result is present exactly when some record has the name; if present it is the first such record, with all three fields as stored |
| `Saver.TeaStore.GetTeaByName` | tea.test.js:16-27 | an absent (empty) store gives None for every name; a found record is stored, has the name and is the first record with that name; None means no record has the name; on a store with distinct names, every record holding the name is the one returned |
| `Saver.FindStored` | tea.test.js:22-27 | in a collection with distinct names, looking up a stored record's name returns that record unchanged |
| `Saver.ContainsId` | tea.test.js:47-53 | true exactly when some stored record has the id |
| `Saver.Save` | tea.test.js:30-53 | succeeds exactly when neither the name nor the id is stored, and then yields the old collection with the record appended (so `[tea]` from an empty store); a refusal is DuplicateName carrying the name when the name is stored, or DuplicateId carrying the id when the id is stored |
| `Saver.TeaStore.SaveTea` | tea.test.js:30-53 | the new contents and the returned error agree with `Save` on the old contents; a refused save leaves the contents unchanged; a store with distinct names and ids keeps them distinct; after a successful save, `GetTeaByName` of the saved name returns the saved record |
| `Saver.SavePreservesUnique` | tea.test.js:39-53 | a successful save keeps names distinct and ids distinct |
| `Saver.SaveAll` | tea.test.js:30-53 | saving a batch in turn only appends: the old collection is a prefix of the result, which grows by at most one record per save |
| `Saver.SaveAllPreservesUnique` | tea.test.js:39-53 | any sequence of saves, each refused or appended, keeps names and ids distinct |
| `Saver.SaveAllFromAbsent` | tea.test.js:30-53 | a store that starts absent has distinct names and ids after any sequence of saves |
| `Saver.SaveThenFind` | tea.test.js:22-37 | after a successful save, looking up the saved name returns exactly the saved record |
| `Saver.SaveKeepsOtherLookups` | tea.test.js:31-37 | a successful save does not change the lookup of any other name |
| `Saver.FindByNameAppend` | tea.test.js:31-37 | appending a record does not change the lookup of a name other than the appended record's |
| `Saver.MessageCarriesValue` | tea.test.js:39-53 | the thrown text is `Tea with name ` followed by the name, or `Tea with id ` followed by the id in decimal, and then ` already exists` |
| `Saver.Message` | tea.test.js:39-53 | the thrown text; what it contains is stated by `Saver.MessageCarriesValue` |
| `Saver.MessageKind` | tea.test.js:39-53 | helper for `Saver.MessageInjective`: the character after `Tea with ` is `n` for a duplicate-name error and `i` for a duplicate-id error (the tests fix the two texts, not this position) |
| `Saver.MessageInjective` | tea.test.js:44-52 | the message `Tea with name <name> already exists` / `Tea with id <id> already exists` determines the error and the value it carries |
| `Decimal.IntToString` | tea.test.js:52 | the id in decimal: a minus sign exactly for a negative id, then digits with no leading zero (0 is the single digit `0`) that read back as the id's magnitude |
| `Decimal.NatToString` | tea.test.js:52 | a non-empty string of digits with no leading zero; 0 is the single digit `0` |
| `Decimal.ValueOfNatToString` | tea.test.js:52 | reading back the decimal digits written for a non-negative id gives the id |
| `Decimal.IntToStringInjective` | tea.test.js:52 | different ids are written as different strings in the message |
| `Saver.TeaStore.constructor` | tea.test.js:32-33 | a store opened on a file holding a collection has exactly that collection; the empty sequence stands for an absent file |
| `Saver.TeaStore.GenerateNewTeaId` | tea.test.js:66-70 | the id is greater than zero, and greater than every stored id |

## Left out

- File-system access (`existsSync`, `readFileSync`, `writeFileSync`) and the test mocks of it: the file is the field `TeaStore.teas`, and an absent file is the empty sequence.
- JSON parsing and the two-space pretty-printed rewrite: the model compares sequences of records, not bytes.
- A file that exists but does not parse: no test exercises it, so it has no error path here.
- Overwriting the record that has the same id (an `it.todo` at tea.test.js:55-63): it is never run, and it contradicts the duplicate-id refusal.
- Which error wins when both name and id collide: `Save` checks the name first, but no test covers the case. The contracts allow either error.
- Saver.TeaStore.GenerateNewTeaId: the tests promise only a positive id. The way `saver.js` makes ids is not part of this model. The model chooses one more than the largest stored id, which also makes the new id fresh against the current contents.
- Ids are unbounded integers. JavaScript numbers are floating point, and neither the limits of safe integers nor non-integral ids are modelled.
- The tests never check that a name is non-empty, so `Save` does not check it either.
- `addTea` from `./index`: it is imported by the tests but never used, and its source is not part of this model.
- `vitest.config.js`: test-runner configuration only.
- Concurrent saves racing on the same file: the model is single-threaded.
