# CoreUtils helpers of the WildFly Core security test suite, in Dafny

This project models the self-contained helpers of
`testsuite/shared/src/main/java/org/jboss/as/test/integration/security/common/CoreUtils.java`
and proves what they promise:

- `toHex`: lowercase hexadecimal encoding of a `byte[]`, two characters per byte, high nibble first.
- `hashMD5` / `hash`: a null-passthrough guard, then a digest of the string's UTF-8 bytes, written as HEX or Base64.
- The descriptor generators `getJBossEjb3XmlAsset`, `getJBossWebXmlAsset` and `getJBossDeploymentStructure`, and the
  users.properties generator `createUsersFromRoles`.
- The outcome test of `applyUpdate`, and `applyUpdates`, which applies a list of management updates in order.

Java semantics are written out where they matter:

- `byte` is signed (`JavaLang.Byte`, -128..127).
- `>> 4` is floor division by 16 and `& 0xf` is the residue modulo 16, so negative bytes are encoded correctly.
- A `String` reference may be null (`JavaLang.JString`), and `StringBuilder.append` writes a null String as `"null"`.
- A varargs array may itself be null; the loops then do nothing.
- `commons-lang` `isNotEmpty` is false for null and for `""`.

Modules, one per concern of the source file:

| file | module | models |
|---|---|---|
| java_lang.dfy | `JavaLang` | null references, `byte`, `append`'s view of a String, `isNotEmpty` |
| hex_encoding.dfy | `HexEncoding` | `toHex`, plus a decoder `Unhex` used as its inverse |
| hashing.dfy | `Hashing` | `hashMD5`, `hash`, the `Coding` switch |
| framing.dfy | `Framing` | documents built as runs of `open + name + close`, and a reader `ParseFramed` for them |
| descriptors.dfy | `Descriptors` | the three XML descriptor generators and a reader for each |
| users_properties.dfy | `UsersProperties` | `createUsersFromRoles`, plus a `key=value` line reader |
| updates.dfy | `Updates` | `applyUpdate`'s outcome classification and `applyUpdates` |

Each loop of the source is a Dafny `method` with a `while` loop. The four generator loops are proved equal to a
specification function (`Hex`, `WebXml`, `DeploymentStructureXml`, `Entries`), and the lemmas are about those
functions. The loop of `applyUpdates` is specified by its `ensures` directly. Each generator has a
partner reader (`Unhex`, `WebXmlContents`, `DeploymentModules`, `ParseProperties`). The lemmas prove that the reader
gives back the names the generator wrote: every byte for `toHex`, every dependency for the deployment structure, every
role for users.properties, and for jboss-web.xml the security domain and the valve names that were kept (the non-null,
non-empty ones). Except for `toHex`, this holds only for names that do not contain the delimiter ending them: `'<'`
for jboss-web.xml, a quote for the deployment structure, `'='` or a newline for users.properties.


## Model

| member | source | states |
|---|---|---|
| `HexEncoding.ToHex` | testsuite/shared/src/main/java/org/jboss/as/test/integration/security/common/CoreUtils.java:205-219 | the loop's text equals `Hex` of the whole array: each byte's high-nibble and then low-nibble character, in array order |
| `HexEncoding.HexLength` | testsuite/shared/src/main/java/org/jboss/as/test/integration/security/common/CoreUtils.java:206-218 | the output is exactly `2 * bytes.length` characters |
| `HexEncoding.HexAt` | testsuite/shared/src/main/java/org/jboss/as/test/integration/security/common/CoreUtils.java:207-217 | characters `2i` and `2i+1` are the digits of `(b >> 4) & 0xf` and `b & 0xf` of byte `i` |
| `HexEncoding.HexAlphabet` | testsuite/shared/src/main/java/org/jboss/as/test/integration/security/common/CoreUtils.java:210-215 | every output character is in `'0'..'9'` or `'a'..'f'`, lowercase only |
| `HexEncoding.NibbleCharDigit` | testsuite/shared/src/main/java/org/jboss/as/test/integration/security/common/CoreUtils.java:211 | nibble `c` becomes a lowercase digit whose value is `c` (`c+'0'` up to 9, `c-10+'a'` above) |
| `HexEncoding.NibblesOfByte` | testsuite/shared/src/main/java/org/jboss/as/test/integration/security/common/CoreUtils.java:210-214 | for a signed byte, even a negative one, the two nibbles are the two hex digits of its unsigned value, and they determine the byte |
| `HexEncoding.FromNibblesNibbles` | testsuite/shared/src/main/java/org/jboss/as/test/integration/security/common/CoreUtils.java:210-214 | the byte assembled from two nibbles has exactly those high and low nibbles |
| `HexEncoding.HexConcat` | testsuite/shared/src/main/java/org/jboss/as/test/integration/security/common/CoreUtils.java:207-217 | bytes are encoded in input order: `Hex(a + b) == Hex(a) + Hex(b)` |
| `HexEncoding.UnhexHex` | testsuite/shared/src/main/java/org/jboss/as/test/integration/security/common/CoreUtils.java:205-219 | decoding the encoding gives back the original bytes |
| `HexEncoding.HexUnhex` | testsuite/shared/src/main/java/org/jboss/as/test/integration/security/common/CoreUtils.java:205-219 | any text the decoder accepts is the encoding of the bytes it returns |
| `HexEncoding.HexInjective` | testsuite/shared/src/main/java/org/jboss/as/test/integration/security/common/CoreUtils.java:205-219 | two byte arrays with the same hex text are equal |
| `HexEncoding.UnhexDefined` | testsuite/shared/src/main/java/org/jboss/as/test/integration/security/common/CoreUtils.java:210-216 | the possible outputs are exactly the even-length texts of lowercase hex digits |
| `Hashing.HashMD5` | testsuite/shared/src/main/java/org/jboss/as/test/integration/security/common/CoreUtils.java:175-177 | a null value or a null coding returns the value unchanged; otherwise the result is `hash(value, "MD5", coding)`, never null when it returns |
| `Hashing.Hash` | testsuite/shared/src/main/java/org/jboss/as/test/integration/security/common/CoreUtils.java:179-203 | an unavailable digest algorithm fails before the coding is examined; HEX gives `Hex(digest(utf8(target)))`, BASE_64 gives the Base64 text of that digest, and any other coding throws IllegalArgumentException |
| `Hashing.Message` | testsuite/shared/src/main/java/org/jboss/as/test/integration/security/common/CoreUtils.java:187-199 | a missing algorithm's NullPointerException has no message of the source's choosing (`None`), and only that failure; the unsupported coding's message is "Unsuported coding:" followed by the constant's name |
| `Hashing.HexHashDecodes` | testsuite/shared/src/main/java/org/jboss/as/test/integration/security/common/CoreUtils.java:186-196 | a HEX hash is twice the digest's length, all lowercase digits, and decodes back to the digest |
| `Hashing.HexMD5DeterminesDigest` | testsuite/shared/src/main/java/org/jboss/as/test/integration/security/common/CoreUtils.java:175-196 | equal HEX `hashMD5` results imply equal MD5 digests: the encoding step loses nothing |
| `Hashing.HexMD5Length` | testsuite/shared/src/main/java/org/jboss/as/test/integration/security/common/CoreUtils.java:175-196 | with 16-byte MD5 digests, a HEX `hashMD5` of a non-null value is 32 lowercase hex digits |
| `Descriptors.JBossEjb3Xml` | testsuite/shared/src/main/java/org/jboss/as/test/integration/security/common/CoreUtils.java:488-501 | the document is the fixed jboss-ejb3.xml head and tail with the security domain (or "null") exactly between them |
| `Descriptors.JBossEjb3XmlInjective` | testsuite/shared/src/main/java/org/jboss/as/test/integration/security/common/CoreUtils.java:497 | different domain texts give different documents |
| `Descriptors.JBossWebXml` | testsuite/shared/src/main/java/org/jboss/as/test/integration/security/common/CoreUtils.java:511-524 | the loop's text is `WebXml`: head, domain, one valve element per non-null non-empty name in order, tail; a null array adds no valves |
| `Descriptors.ValveNames` | testsuite/shared/src/main/java/org/jboss/as/test/integration/security/common/CoreUtils.java:515-519 | the kept valve names are never more than the given ones and none is empty |
| `Descriptors.ValveNamesMembers` | testsuite/shared/src/main/java/org/jboss/as/test/integration/security/common/CoreUtils.java:516-518 | a name gets a valve element exactly when the caller gave it and it is non-empty |
| `Descriptors.ValveNamesAllKept` | testsuite/shared/src/main/java/org/jboss/as/test/integration/security/common/CoreUtils.java:516-518 | when no name is null or empty, every name is kept, in the given order |
| `Descriptors.WebXmlRoundTrip` | testsuite/shared/src/main/java/org/jboss/as/test/integration/security/common/CoreUtils.java:511-524 | reading a generated jboss-web.xml back gives its domain and exactly the kept valve names in order, when none contains '<' |
| `Descriptors.WebDocumentRoundTrip` | testsuite/shared/src/main/java/org/jboss/as/test/integration/security/common/CoreUtils.java:513-522 | any document with the jboss-web.xml layout is read back into its domain and valve names, when neither the domain nor any name contains '<' |
| `Descriptors.JBossDeploymentStructure` | testsuite/shared/src/main/java/org/jboss/as/test/integration/security/common/CoreUtils.java:533-543 | the loop's text is `DeploymentStructureXml`: head, one `<module name='…'/>` per dependency in order (a null name as "null"), tail; a null array adds none |
| `Descriptors.DeploymentStructureRoundTrip` | testsuite/shared/src/main/java/org/jboss/as/test/integration/security/common/CoreUtils.java:533-543 | reading the document back gives exactly the dependency names, one per module element, in order, when none contains a quote |
| `Descriptors.DeploymentModulesSound` | testsuite/shared/src/main/java/org/jboss/as/test/integration/security/common/CoreUtils.java:533-543 | any text the reader accepts is the document generated for the names it reads |
| `UsersProperties.CreateUsersFromRoles` | testsuite/shared/src/main/java/org/jboss/as/test/integration/security/common/CoreUtils.java:560-568 | the loop's text is `role=role` and a newline per role (a null role as "null"), in order; a null array gives `""`, never null |
| `UsersProperties.EntriesConcat` | testsuite/shared/src/main/java/org/jboss/as/test/integration/security/common/CoreUtils.java:563-565 | the text for two lists of roles is the text for the first followed by the text for the second |
| `UsersProperties.EntriesLength` | testsuite/shared/src/main/java/org/jboss/as/test/integration/security/common/CoreUtils.java:564 | the text has `2 * |roles|` characters plus twice the roles' total length |
| `UsersProperties.UsersPropertiesRoundTrip` | testsuite/shared/src/main/java/org/jboss/as/test/integration/security/common/CoreUtils.java:545-568 | reading the text back gives one `(role, role)` entry per role, in order, when no role contains '=' or a newline |
| `Updates.ApplyUpdate` | testsuite/shared/src/main/java/org/jboss/as/test/integration/security/common/CoreUtils.java:265-271 | returns normally exactly when the outcome is defined and equals "success"; otherwise throws with the failure description when present, else the generic failure carrying the outcome |
| `Updates.Message` | testsuite/shared/src/main/java/org/jboss/as/test/integration/security/common/CoreUtils.java:267-270 | the exception message is the failure description; otherwise "Operation not successful; outcome = " followed by the outcome node's printed text, or by "undefined" when the outcome is undefined |
| `Updates.ApplyUpdates` | testsuite/shared/src/main/java/org/jboss/as/test/integration/security/common/CoreUtils.java:253-257 | updates are sent in list order; the call returns normally exactly when every update succeeded, otherwise it stops at and rethrows the first failure, all earlier ones having succeeded |

## Left out

- `TransactionalProtocolHandlers` (`createClient`, `wrap`, `executeBlocking`): the three methods only delegate to `TransactionalProtocolClientImpl`, `TransactionalOperationImpl` and `BlockingQueueOperationListener`, which are not part of this model. The protocol behind them is asynchronous and concurrent.
- `CommandContext`: an interface whose default methods only forward to abstract ones; there is no implementation to model.
- `ExposeModelResource`, `ManagedDMRContentTypeResourceDefinition`, `IgnoredDomainTypeResourceDefinition`, `InjectedSocketBindingStreamServerService`, `SubDeploymentUnitService`: management registration and service-lifecycle glue with no algorithmic content.
- `TransformersTestParameter` (a fixed list of test versions) and `FilterSpecification` (equality and hash delegate to the foreign `PathFilter` and `Objects.hash`).
- CoreUtils keystore and certificate generation, file writes and `createKeyMaterial`: I/O.
- CoreUtils HTTP calls (`makeCall`, `getContent`, the FORM/BASIC authentication helpers): network I/O.
- CoreUtils `stop`: sleeps on the clock.
- CoreUtils `setSystemProperty`, `getDefaultHost`, `getLoginConfiguration`, `getResource`: read or change JVM-global state.
- CoreUtils `getCannonicalHost`: DNS lookups.
- CoreUtils `replaceHost`: relies on `java.net.URI` parsing and `NetworkUtils`, which are not part of this model.
- CoreUtils `propertiesReplacer`: resource loading, host resolution and `StrSubstitutor`.
- CoreUtils `encodeQueryParam`: relies on `URLEncoder`.
- CoreUtils `stripSquareBrackets`: a one-line wrapper over commons-lang `StringUtils.strip`, whose code is not part of this model.
- Archive export helpers: ShrinkWrap I/O.
- Hashing.Hash: `MessageDigest`, `String.getBytes(UTF_8)` and `Base64` are foreign. They are parameters (`Providers`), so nothing about MD5 or Base64 itself is proved. The stack trace printed when the algorithm is missing is not modelled.
- Hashing.Message: the message of the NullPointerException depends on the JDK (null before helpful NullPointerException messages, JVM-generated text after), so it is `None` rather than a text.
- JavaLang.JString: a Dafny `string` is a sequence of Unicode scalar values, while a Java `String` is a sequence of UTF-16 code units and may hold unpaired surrogates, which the model cannot represent. The generators only concatenate, so their results do not depend on the unit.
- Hashing.Hash: `Coding.java` is not part of this model. `Coding.Unknown` stands for any constant other than `BASE_64` and `HEX`.
- Hashing.Hash: takes a non-null `target` and `coding`. Calling `hash` directly with null throws NullPointerException in the source; `hashMD5` never does that.
- HexEncoding.ToHex: takes a non-null array. A null `byte[]` makes the source throw NullPointerException. The `StringBuffer` capacity `bytes.length * 2` is a 32-bit `int`: for an array of 2^30 bytes or more it wraps to a negative number and the source throws NegativeArraySizeException, while the model returns the encoding for every length. The same holds for the HEX branch of `Hashing.Hash` on such a digest.
- Descriptors.JBossEjb3Xml, Descriptors.JBossWebXml, Descriptors.JBossDeploymentStructure: the result is the text of the ShrinkWrap `StringAsset`, not the asset object. Names are not XML-escaped in the source, so the round-trip lemmas require names free of the closing delimiter.
- Updates.ApplyUpdate: `client.execute` and the `ModelNode` result are abstracted. The result is reduced to two fields: the outcome node's `asString()` and `toString()` texts when defined, and the failure description's printed text when defined. Debug logging is left out.
- Updates.Message: `ModelNode.toString()` is not modelled; a defined outcome carries its printed text as given (`Node.printed`), which depends on the node's type and not only on its `asString()` text.
- UsersProperties.UsersPropertiesRoundTrip: the reader `ParseProperties` splits `key=value` lines and is not the `java.util.Properties` format. A role containing ':', whitespace or `\`, or starting with '#' or '!' satisfies the precondition but would not load back as itself from a real users.properties.
- Updates.ApplyUpdates: the client is a function from the updates it has received so far to its answer. A null update list, and exceptions thrown by the client itself, are not modelled.
