# Keychain items: the store and the item editor in Dafny

This project models the two parts of the keychain sample application that
have behaviour of their own.

- **`KeyChain`** is a key/value view of the generic-password entries that
  belong to one service identifier in the platform keychain. It can
  enumerate its keys, look up the data for a key, and set data. Setting data
  updates an existing entry, adds a missing one, or deletes the entry when
  the data is `nil`. It can also remove one key or every key. A subscript
  archives objects on the way in and unarchives them on the way out. Changes
  to the key set are announced to observers as `.union` / `.minus` set
  mutations.
- **The item view controller** shows one keychain item. It is in one of four
  modes (None, View, Edit, Create), and its `editing` flag must match the
  mode. The show button reveals or hides the value. Edit starts editing.
  Done trims the key and validates it. On a rename, Done removes the old
  entry, then writes the value under the new key. The states of the
  on-screen controls are derived from the mode and the `editing` flag.

The modules follow that structure:

- `KeyChainStore` (keychain.dfy) covers the store. The platform keychain is
  a `SecureStore`: a map from service identifier to that service's entries
  (account name to `Data`). A `KeyChain` holds its service identifier. Each
  operation is a function from the store contents to new contents, plus the
  notices sent along the way.
- `ItemEditor` (item_editor.dfy) covers the controller. Its state is an
  `Editor` record (mode, editing, key). Its transitions are functions whose
  preconditions are the controller's own state assertions. `Step` and `Run`
  replay a sequence of taps; a trap is modelled as `None`.
- `Trimming` (trimming.dfy) removes the enclosing whitespace from the key
  field.
- `Archiving` (archiving.dfy) holds the byte data and a stand-in for the
  object archive.
- `Optional` (optional.dfy) is Swift's `T?`.

Where the source traps with an assertion or a forced unwrap, the model has
a `requires`. This covers an empty service identifier, an empty key, reading
data that is not an archive, revealing a value that is not a string, and a
button tapped in the wrong state.

## Model

| member | source | states |
|---|---|---|
| `KeyChainStore.Init` | KeychainItems/KeyChain.swift:23-30 | a keychain can be made only for a non-empty service identifier, and it is bound to that service |
| `KeyChainStore.Keys` | KeychainItems/KeyChain.swift:41-71 | the keys are exactly the accounts stored under the keychain's own service, and no others |
| `KeyChainStore.DataForKey` | KeychainItems/KeyChain.swift:74-100 | needs a non-empty key; returns nil exactly when the key is not among `Keys`, and otherwise the data stored for it |
| `KeyChainStore.SetData` | KeychainItems/KeyChain.swift:103-159 | needs a non-empty key; afterwards a lookup of the key gives exactly the data that was set (nil = removed); the service's entries become the old dictionary updated at that key, or with that key removed; other services are untouched; the key set gains or loses exactly that key; notices are sent exactly when membership changes: a will/did `.union` pair for an insert, a `.minus` pair for a delete, none for an update or a no-op delete |
| `KeyChainStore.SetDataNoticesTrackKeys` | KeychainItems/KeyChain.swift:129-154 | an observer that applies the notices of one `SetData` to the old key set ends up with the new key set |
| `KeyChainStore.RemoveDataForKey` | KeychainItems/KeyChain.swift:162-167 | is exactly `SetData` with nil, and the key is absent afterwards |
| `KeyChainStore.RemoveAll` | KeychainItems/KeyChain.swift:170-177 | removing every key one by one leaves the service with no keys and no entries (so every lookup gives nil), leaves other services untouched, and returns the order in which the keys were removed, which covers exactly the keys the service held; the notices are one will/did `.minus` pair for `{key}` per key, in that order; an observer that follows those notices ends with the empty set |
| `KeyChainStore.Get` | KeychainItems/KeyChain.swift:186-191 | subscript get gives nil exactly when the key has no entry, and otherwise the object whose archive is the stored data |
| `KeyChainStore.Put` | KeychainItems/KeyChain.swift:193-200 | after subscript set, subscript get of the same key returns exactly the object that was set (nil included); no other entry of the service and no other service changes; setting nil is `RemoveDataForKey`; the notices are those of `setData`: a `.union` pair when an object is stored under a new key, a `.minus` pair when nil removes an existing key, and none otherwise |
| `KeyChainStore.PerformMatchesReference` | KeychainItemsTests/KeychainItemsTests.swift:45-76 | for any run of sets and removals, the service's entries equal a plain dictionary given the same operations, other services are untouched, and the notices sent let an observer rebuild the key set |
| `KeyChainStore.RepeatedUpdateAddsOneKey` | KeychainItemsTests/KeychainItemsTests.swift:79-95 | setting the same key any number of times adds just that one key to the key set, and the key holds the last value |
| `Archiving.ArchiveRoundTrip` | KeychainItems/KeyChain.swift:186-200 | unarchiving gives an object exactly when the data is that object's archive: the round trip the subscript relies on |
| `Archiving.ArchiveInjective` | KeychainItems/KeyChain.swift:193-196 | distinct objects are archived to distinct data |
| `Trimming.SkipForward` | KeychainItems/ItemViewController.swift:101 | scanning forward stops at the first non-whitespace character: everything skipped is whitespace, and the scan stops at the end or at a non-whitespace character |
| `Trimming.SkipBackward` | KeychainItems/ItemViewController.swift:101 | scanning backward stops just past the last non-whitespace character: everything skipped is whitespace, and the scan stops at its lower bound or after a non-whitespace character |
| `Trimming.Trim` | KeychainItems/ItemViewController.swift:101 | the trimmed key neither begins nor ends with whitespace |
| `Trimming.TrimEmpty` | KeychainItems/ItemViewController.swift:101-104 | the trimmed key is empty exactly when the key field holds only whitespace, which is the "KEY REQUIRED" case |
| `Trimming.TrimIsSlice` | KeychainItems/ItemViewController.swift:101 | the trimmed key is a contiguous slice of the field text with only whitespace outside it |
| `Trimming.TrimUnique` | KeychainItems/ItemViewController.swift:101 | any trimmed text surrounded by whitespace trims back to exactly itself, so the slice above is unique |
| `Trimming.TrimIdempotent` | KeychainItems/ItemViewController.swift:101 | trimming twice is the same as trimming once |
| `ItemEditor.Init` | KeychainItems/ItemViewController.swift:46-57 | the key is the given key, or "" when there is none; the mode is Create exactly when no key is given, and None otherwise; `editing` agrees with the mode, so the invariant holds from the start |
| `ItemEditor.Show` | KeychainItems/ItemViewController.swift:60-77 | needs a controller that is not editing (and a stored string to show when the value is hidden); toggles None to View and any other mode to None; key, `editing` and the store are unchanged; the invariant holds after; the text shown is the string whose archive is stored under the key |
| `ItemEditor.ShowTwiceRestores` | KeychainItems/ItemViewController.swift:60-77 | under the invariant, pressing show twice returns the controller to its previous state |
| `ItemEditor.BeginEdit` | KeychainItems/ItemViewController.swift:80-91 | needs a controller that is not editing; moves it to Edit mode with editing on, keeps the key, and establishes the invariant |
| `ItemEditor.Validate` | KeychainItems/ItemViewController.swift:100-109 | the key is accepted exactly when it is non-empty and either unchanged or not an existing key; it is rejected with "KEY REQUIRED" exactly when empty, and with "KEY EXISTS" exactly when it is a rename onto an existing key |
| `ItemEditor.Commit` | KeychainItems/ItemViewController.swift:110-119 | afterwards the new key holds the value text; on a rename from a non-empty old key, the old entry is gone; no other entry of the service, and no other service, changes; when there is no rename (the old key is empty, as in Create mode, or equals the new key) only the new key's entry changes; the notices are a `.minus` pair for the old key if a rename removed an existing entry, then a `.union` pair for the new key if it was not stored before, and nothing else |
| `ItemEditor.CommitNoticesTrackKeys` | KeychainItems/ItemViewController.swift:110-119 | the notices sent while committing let an observer of the key set (the item list) rebuild the new key set |
| `ItemEditor.Done` | KeychainItems/ItemViewController.swift:94-125 | needs an editing controller; the outcome is `Validate` applied to the trimmed key field; a rejected key changes neither the controller nor the store and sends no notices; an accepted key leaves the store and notices exactly as `Commit` does, with the controller at mode None, not editing, holding the trimmed key; the invariant is kept on every path |
| `ItemEditor.RenameOntoExistingRejected` | KeychainItems/ItemViewController.swift:107-109 | renaming onto a key that already has an entry is refused with "KEY EXISTS" |
| `ItemEditor.SavedValueIsShown` | KeychainItems/ItemViewController.swift:60-125 | after a successful Done, the show button may be pressed, and it reveals exactly the text that was saved |
| `ItemEditor.ModeDidChange` | KeychainItems/ItemViewController.swift:149-179 | the value is hidden exactly in mode None; the key field is enabled, the show button hidden and the bar button is Done exactly when editing; the key field and the value view are editable together; the show button reads "SHOW" exactly when the value is hidden, and "HIDE" otherwise |
| `ItemEditor.ControlsMatchGuards` | KeychainItems/ItemViewController.swift:149-179 | under the invariant, the controls on screen are exactly those whose actions may be taken: the show and Edit buttons appear only when not editing, Done only when editing; the value is hidden exactly in mode None; fields are editable and focused as Edit/Create require |
| `ItemEditor.RunKeepsInvariant` | KeychainItems/ItemViewController.swift:183-189 | any sequence of show, edit and done taps that does not trap keeps `invariant`, including Done's early returns, and never touches another service's entries |
| `ItemEditor.InitialRunKeepsInvariant` | KeychainItems/ItemViewController.swift:183-189 | from a freshly initialised controller, every reachable state satisfies `invariant` |

## Left out

- The default initialiser, which takes the application's bundle identifier as the service. It is a host lookup.
- The keychain query dictionaries and `OSStatus` handling. Searches, updates, additions and deletions are map operations. Statuses other than "not found" cannot occur in a map, and the source only asserts on them.
- The archive format. A small tagged encoding of strings and numbers stands in for it. The keychain relies only on its round trip, which is proved.
- Observer registration and delivery. Notices are returned as a log. `Observe`/`ObserveAll` describe what an observer of `keys` computes from them.
- UIKit side effects. This covers alert presentation (only which alert is modelled), nib loading, outlets, `setEditing` animation, localisation and navigation. The key field and value view contents at the moment Done is tapped are parameters, and so is the initial key text set in `viewDidLoad`.
- The sorted key snapshot in the list view controller, the application delegate, the UI tests and the element-geometry helpers. They are table-view, launch and UI-automation code.
- Whitespace is the fixed set the platform documents for its whitespace character set: the Unicode space separators and the tab. Unicode property tables are not modelled.
- `KeyChainStore.Keys`: accounts are compared as exact sequences of Unicode scalar values, while Swift's `String` equality and `Set<String>` hashing treat canonically equivalent strings (such as a precomposed "é" and "e" followed by a combining accent) as one. Two such accounts are two keys here but one set element in the source.
- `KeyChainStore.RemoveAll`: for the same reason, it removes every stored account. The source removes only one account of each class of canonically equivalent names.
- `ItemEditor.Validate`: a key field that is canonically equivalent to the current key, but not identical to it, counts as a rename here. The source treats it as the same key.
- `ItemEditor.Done`: in the canonically-equivalent case above, it removes the old entry and moves the editor to the new spelling. The source writes under the old key and sends no notices. Unicode normalisation is not modelled.
- Concurrency. The source is synchronous and adds no locking of its own.
