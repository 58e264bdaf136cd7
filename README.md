# cert-base: a verified model of the CertBase certificate store

CertBase is a small local certificate authority. It creates one self-signed
root CA, issues host certificates signed by that CA on first request, and
keeps every key/certificate pair on disk under a storage root. Each identity
owns the folder `{root}/{name}` with the files `{name}.key` and `{name}.crt`.
The identity is either the reserved CA name `##ca##` or a hostname.

This project models the `CertBase` class of `src/index.js` in Dafny:

- `paths.dfy` (module `Paths`): the naming of folders and files. Joining is
  concatenation with `/`. It proves that file paths never collide and that the
  folders of distinct one-segment names share no path.
- `subjects.dfy` (module `Subjects`): the subject merge. Object spread becomes
  right-biased map union: built-in defaults, then the constructor's
  overrides, then the per-call common name.
- `issuer.dfy` (module `Issuer`): the external issuer (`pem`/OpenSSL) as an
  opaque oracle. It is a pair of functions, `createCSR` and
  `createCertificate`, each of which may fail with a reason. One is passed to
  every call that issues.
- `store.dfy` (module `Store`): the file system as a `map<string, string>`
  from path to content. Presence of an identity, the directory listing, and
  the effect of writes and deletions are stated here.
- `listing.dfy` (module `Listing`): the filter and result shape of `listCerts`.
- `certbase.dfy` (module `Lifecycle`): class `CertBase`. Its field `files` is
  the file system it works on, and its methods are the lifecycle operations,
  each specified by the new store and the result.
- `scenarios.dfy` (module `Scenarios`): client methods proved from the
  contracts alone. One shows that two lookups of a host give identical
  content. The other runs the life of a store whose root starts empty.

The model follows these choices of `src/index.js`:

- The layout is `{root}/{name}/{name}.{key|crt}`, with `##ca##` as the CA's
  name.
- `removeCert` always resolves to `true`, also when the host is absent.
- Operations return file contents, not paths.

The source tests in `test/index.js` load `lib/index.js`, but they exercise
the `CertBase` API of `src/index.js`. The model reads them as tests of that
API.

## Model

| member | source | states |
|---|---|---|
| `Paths.Ext` | src/index.js:171-172 | The kind `"cert"` gets extension `crt`; every other kind gets `key`. |
| `Paths.FolderPath` | src/index.js:175-177 | An identity's folder lies beneath the store root and is one name longer than the root plus a separator. |
| `Paths.FilePath` | src/index.js:171-174 | A key or certificate file lies inside its identity's folder, and so inside the store root. |
| `Paths.FilePathInjective` | src/index.js:166-177 | Two file paths are equal exactly when they have the same identity name and extension. This holds for every pair of names, the CA's included. |
| `Paths.KeyAndCertDiffer` | src/index.js:166-174 | An identity's key path and certificate path are different files. |
| `Paths.FirstSegment` | src/index.js:127 | The leading segment of a path is a prefix without `/`, and it stops at the first `/`. This is the name a directory read reports for a path beneath it. |
| `Paths.FirstSegmentOf` | src/index.js:127 | A one-segment name followed by `/` is the leading segment that a directory read of the parent reports. |
| `Paths.SegmentUnderFolder` | src/index.js:176 | Every path in the folder of a slash-free name has that name as its leading segment beneath the root. |
| `Paths.FoldersDisjoint` | src/index.js:175-177 | The folders of two slash-free names share a path only when the names are equal. |
| `Paths.FolderSeparate` | src/index.js:118-121 | For two distinct one-segment names, no file of one lies under the folder of the other. Deleting a host's folder therefore cannot reach another identity. |
| `Subjects.InstanceSubject` | src/index.js:13-17 | The instance subject has the built-in country, organization and organization unit, except where the constructor's `subject` option overrides them. Every override is kept. |
| `Subjects.CallSubject` | src/index.js:47-50 | The issuance subject's `commonName` is the argument. Every other field is the instance subject's. |
| `Subjects.SubjectPrecedence` | src/index.js:34-37 | Precedence for every field is common name, then constructor overrides, then built-in defaults. Country, organization and organization unit are always present. |
| `Store.Present` | src/index.js:166-170 | An identity with both its key file and its certificate file counts as present. One with exactly one of the two does not. |
| `Store.Pair` | src/index.js:83-89 | The pair read for a present identity is the content of its key file and of its certificate file. |
| `Store.SavePair` | src/index.js:148-165 | Saving adds exactly the identity's key path and certificate path to the store, holding the given key and certificate. Every other path keeps its content. |
| `Store.RemoveUnder` | src/index.js:114-119 | Deleting a directory removes exactly the paths at or beneath it. Every other path keeps its content. |
| `Store.Entries` | src/index.js:127 | A root's directory listing consists of one-segment names. |
| `Store.SavePairEffect` | src/index.js:148-165 | Writing an identity's key then its certificate makes it present with exactly those contents. Every other identity keeps its presence and its stored pair. |
| `Store.PartialSaveIsAbsent` | src/index.js:166-170 | A key file without its certificate does not count as present. An identity with no certificate file stays absent when only its key is written. |
| `Store.CertOnlyBecomesPresent` | src/index.js:158-169 | An absent identity that has its certificate file but no key file becomes present when only the key write of a save happens. It then pairs the new key with the old certificate, so the two-file write is not crash-safe for such an identity. |
| `Store.RemoveFolderEffect` | src/index.js:118-121 | Deleting `{root}/{h}` leaves `h` absent. Every other valid identity, the CA included, keeps its presence and its pair when `h` is a one-segment name. |
| `Store.RemoveRootEffect` | src/index.js:113-116 | Deleting the root leaves no identity present and nothing to list. |
| `Store.PresentIsListed` | src/index.js:123-135 | Every present identity with a one-segment name appears in the root's listing. |
| `Listing.WithoutCa` | src/index.js:135 | The filtered entries are exactly the entries other than `##ca##`. The filter never adds entries, and it changes nothing when the CA is absent. |
| `Listing.WithoutCaAppend` | src/index.js:135 | The filter keeps the entries in their order: filtering a concatenation is the concatenation of the filtered parts. |
| `Listing.ListingOf` | src/index.js:123-140 | A failed or empty directory read gives `{}`. Otherwise the result holds the CA's name and the entries other than the CA's, and never lists `##ca##` among `certs`. |
| `Issuer.CaOptions` | src/index.js:53-58 | A CA request is self-signed, names no signing pair and the CA extension policy, and carries the CSR and client key unchanged. |
| `Issuer.IssueCa` | src/index.js:52-59 | A CSR failure is passed on as the answer. Otherwise the answer is the issuer's response to the CA request built from the CSR. |
| `Issuer.LeafOptions` | src/index.js:101-107 | A leaf request is not self-signed, is signed by the given CA pair, names the user extension policy, and carries the CSR and client key unchanged. |
| `Issuer.IssueLeaf` | src/index.js:99-108 | A CSR failure is passed on as the answer. Otherwise the answer is the issuer's response to the leaf request built from the CSR and the CA pair. |
| `Lifecycle.PairOf` | src/index.js:161-164 | The returned pair's key is the issued client key and its certificate is the issued certificate. |
| `Lifecycle.CertBase.constructor` | src/index.js:32-39 | An instance keeps the root, merges the subject overrides over the defaults, and starts on the given file system. |
| `Lifecycle.CertBase.IsExist` | src/index.js:166-170 | A name whose key file and certificate file both exist is reported as existing. A name with only one of the two files is not. For an existing name, `Stored(name)` is the pair read back from the instance's store, which is `Store.Pair` of its files (src/index.js:68-77). |
| `Lifecycle.CertBase.IsCAExist` | src/index.js:142-144 | The CA exists exactly when both the CA key file and the CA certificate file are in the store. |
| `Lifecycle.CertBase.WriteFile` | src/utils.js:8-18 | A write creates or overwrites one path, touches nothing else, and resolves to the written content. |
| `Lifecycle.CertBase.Save` | src/index.js:148-165 | After a save, the store is the old store with the key file and then the certificate file written. The identity is present, the returned pair is what the store now holds, and other identities are untouched. |
| `Lifecycle.CertBase.CreateCACert` | src/index.js:41-62 | A present CA gives `CA_EXIST` and writes nothing. Otherwise the issuer gets a self-signed, CA-policy request for the instance subject under `commonName`. An issuer failure passes through with nothing written. On success exactly the CA's two files are written, the CA exists, and the returned key/cert are what is stored. |
| `Lifecycle.CertBase.GetCACert` | src/index.js:64-78 | It succeeds exactly when the CA exists, returning the stored CA pair unchanged. Otherwise it fails with `CA_NOT_EXIST`. It never changes the store. |
| `Lifecycle.CertBase.GetCertByHost` | src/index.js:80-111 | A present host gives its stored pair with the store unchanged. For an absent host with no CA it fails with `CA_NOT_EXIST` and writes nothing. Otherwise the issuer gets a leaf-policy request signed by the stored CA pair. On success only the host's two files are written and the host is present with the returned pair. No other identity changes. |
| `Lifecycle.CertBase.RemoveAllCerts` | src/index.js:113-116 | It resolves to `true` and removes everything under the root. Afterwards the CA does not exist, no identity is present, and the root lists nothing. |
| `Lifecycle.CertBase.RemoveCert` | src/index.js:118-121 | It resolves to `true` and removes exactly the paths under `{root}/{hostname}`. The host is then absent. For a one-segment hostname, every other one-segment identity, the CA included, keeps its presence and pair. |
| `Lifecycle.CertBase.ListCerts` | src/index.js:123-140 | A failed read or an empty root gives `{}`. A successful read of a non-empty root gives a listing. In that case `certs` holds exactly the root's entries other than `##ca##`, so every present host with a valid name is listed. |
| `Scenarios.LookupTwice` | src/index.js:80-90 | Once a lookup of a host succeeds, a second lookup returns the identical pair, whatever the issuer would answer. |
| `Scenarios.FreshStoreLifecycle` | test/index.js:26-128 | It runs the life of a store on an empty root. Before a CA exists: no CA, `getCACert` and `getCertByHost` fail with `CA_NOT_EXIST`. A second `createCACert` fails with `CA_EXIST`. The host certificate is the issuer's answer to a request signed by the stored CA. After `removeCert` the issuer is asked again. After `removeAllCerts` the CA is gone and lookups fail again. |
| `Scenarios.RemoveThenReissue` | test/index.js:102-128 | On a store with a CA, after `removeCert` the next lookup of the host is the answer of the issuer asked then, signed by the CA. After `removeAllCerts` the CA is gone and lookups fail with `CA_NOT_EXIST`. |

## Left out

- Cryptography and certificate contents: key generation, CSR encoding, X.509 signing and the extension files' contents are not modelled. In the model, keys and certificates are opaque strings. The issuer is an arbitrary function, represented by which extension policy (CA or leaf) a request names. The default validity of 36500 days and the process-global OpenSSL path setting live in `src/pem.js`, which is represented only by that oracle.
- File-system failures: failures of `readFile`, `writeFile`, `readdir` and the directory deletion are not modelled, except that a failed directory read is an input to `listCerts`. The model does not capture a write that fails between the key file and the certificate file. `Store.PartialSaveIsAbsent` states that an identity with no certificate file stays absent after only its key write. `Store.CertOnlyBecomesPresent` states that an identity with only a certificate file becomes present, with the new key and the old certificate.
- Directories are not values of the model: the store holds only files. An empty root and a missing root both list nothing. A directory sitting at a key or certificate path, which `existsSync` would accept, cannot occur.
- Path normalisation: path joining is concatenation with `/`. `..`, `.`, absolute segments and separators inside names are not normalised. The empty name behaves differently from a real join, which would make `removeCert('')` delete the whole root.
- Lifecycle.CertBase.RemoveCert: the promise that other identities survive is stated only for one-segment names (`Paths.ValidName`: non-empty, not `.` or `..`, no `/`). For other names, real path semantics decide what is removed, and this model does not reproduce them.
- The deletion library: beyond "delete the directory and everything beneath it", its behaviour is unknown, including the meaning of the second argument at src/index.js:119.
- Concurrency: two overlapping calls, such as two concurrent `createCACert`, are not modelled. Every operation runs to completion before the next starts.
- Lifecycle.CertBase.ListCerts: the order of the directory entries is the read's own, given as the input `dir`. The contract relates the listed names to the store as sets. No contract of `ListCerts` promises an order for `certs`. `Listing.WithoutCaAppend` states only that the filter keeps the order of the entries it keeps.
- Subject fields set to `undefined` in the constructor's `subject` option are not modelled. Subjects map field names to strings.
- src/errors.js is not part of this model. `CA_EXIST` and `CA_NOT_EXIST` are the error values `CaExist` and `CaNotExist`.
- The older `CertGenerator` in `lib/index.js` and `lib/utils.js` is left out, as are `test/features.js` and `test/gen-root-cert.js`, which target that older API and return paths instead of contents.
