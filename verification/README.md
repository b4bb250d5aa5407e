# Verified model of the hybrid SM2 + Dilithium2 certificate repository

This project models the logic of the repository that adds hybrid
SM2 + Dilithium2 certificates and carries patches for protocol negotiation in
GmSSL, and proves properties of it with Dafny 4.11. Run
`dafny verify dfyconfig.toml --resource-limit 2000000` to check everything.

The primitives (SM2, SM3, SHA-256, Dilithium2, AES-GCM, PBKDF2, PEM, ASN.1
templates) are functions in a record (`Lib`, `StoreLib`, `X509Lib`); nothing is
assumed of them except laws that a lemma names in its `requires`.
Code that updates objects or buffers is modelled as methods on classes and
arrays, each tied by its `ensures` to a specification function, about which the
lemmas then speak.

| file | component |
|---|---|
| `Bytes.dfy` | byte strings, big-endian integers, length-prefixed vectors |
| `TlsExtensions.dfy` | TLS extension lists |
| `PskLists.dfy` | the client's four parallel PSK lists and the HelloRetryRequest filter |
| `PqPskNegotiation.dfy` | both ends of the TLS 1.3 `0xFF03` negotiation |
| `PqPskRuns.dfy` | whole client/server runs of it |
| `HandshakeStates.dfy` | handshake states from EncryptedExtensions to Finished |
| `Pqkex.dfy` | the TLCP PQKEX capability `0xFF02` |
| `Der.dfy`, `Composite.dfy` | canonical DER check, composite keys and signatures, legacy adapter |
| `KeyOwnership.dfy` | reference counts of the EVP objects that composite keys share |
| `KeyContainer.dfy`, `KeyStore.dfy`, `KeyLifecycle.dfy` | key store over a disk that may fail or crash, and sequences of tool runs |
| `Certificates.dfy` | certificate builder, validator, and the theorems that join them |
| `RawCertificates.dfy`, `TlcpAdapter.dfy`, `TlcpPolicy.dfy` | TLCP certificate messages, three-valued adapter, fallback policy |
| `Statistics.dfy` | the benchmark's loops, rank, median and mean |

How the parts that the patches do not show are treated: what that code rejects
and what it leaves in the fields that it knows (modes, retry state, selected
identity, early data, key share) is an argument (`HiddenServer`, `HiddenRetry`,
`HiddenAgain`, `HiddenClient`), and the theorems hold for all of them. It is not
taken to write the fields that patch 0004 itself declares (offered, negotiated,
selected external PSK), because the patch shows every write to them.

On the disk, every operation may fail, every `write` may be partial, and
`history` records the files after every operation; a statement about all entries
of `history` is a statement about a crash at any point.

Where the code and its documentation, or two parts of the code, disagree, the
model follows the code:

- `docs/tlcp-hybrid-certificate.md` calls a recognized but malformed certificate
  INVALID. `tlcp_hybrid_cert_verify_der` does so; the GmSSL callback hands it
  zero bytes when the first certificate does not decode, so there it is
  NOT_APPLICABLE. `TlcpAdapter.ClassificationsAgree` says exactly when the two
  classify alike. The OID inside a SEQUENCE is an input on which they differ
  (`TlcpAdapter.WrappedOidDiffers`); it is a raw chain element, so it does reach
  the callback, and a compatible client then hands it to the ordinary verifier
  (`TlcpPolicy.ReceiveWrappedOid`).
- The client's own configuration check does not look at
  `signature_algorithms`, which the server demands. Such a client's offer is
  refused: `PqPskRuns.OfferMeetsServerChecks` gives the exact condition.
- `passphrase_valid` lets passphrases through that `password_callback` later
  refuses, because they do not fit the buffer that the PEM reader hands it. With
  such a passphrase save succeeds and no load ever does: a successful save loads
  back iff the passphrase fits that buffer and the key passes the loader's checks
  (`KeyStore.Save`), and some longer passphrase is always valid
  (`KeyStore.LongPassphraseLoadsNothing`).

## Model

| member | source | states |
|---|---|---|
| PskLists.DecodeOfEncode | patches/gmssl/0004-add-tls13-post-quantum-pre-shared-key.patch:475-536 | four parallel lists written from any PSKs decode back to those PSKs, each with its own key, suite and type |
| PskLists.EncodeOfDecode | patches/gmssl/0004-add-tls13-post-quantum-pre-shared-key.patch:475-536 | the four lists are determined by what they decode to, for every byte string |
| PskLists.PskTable.CollectSuite | patches/gmssl/0004-add-tls13-post-quantum-pre-shared-key.patch:475-524 | the copying loop succeeds iff the lists decode with nothing left over; the temporary lists then encode the PSKs of the suite and are never longer than the originals |
| PskLists.PskTable.Push | patches/gmssl/0004-add-tls13-post-quantum-pre-shared-key.patch:495-524 | appending one identity, key and type extends the encoded list by exactly that PSK |
| PskLists.PskTable.WriteBack | patches/gmssl/0004-add-tls13-post-quantum-pre-shared-key.patch:525-536 | afterwards the connection's lists encode the temporary list and every suite is the chosen one |
| PskLists.PskTable.KeepSuite | patches/gmssl/0004-add-tls13-post-quantum-pre-shared-key.patch:475-536 | after HelloRetryRequest the lists decode to the order-preserving sublist of PSKs of the chosen suite, no list has grown, and a failed update changes nothing |
| PskLists.OfSuiteIsSublist | patches/gmssl/0004-add-tls13-post-quantum-pre-shared-key.patch:495-524 | what is kept stands at the matching positions of the original, so key and type stay with their identity |
| PskLists.PositionsIncrease | patches/gmssl/0004-add-tls13-post-quantum-pre-shared-key.patch:495-524 | the kept positions are in their original order, none twice |
| PskLists.OfSuiteIsComplete | patches/gmssl/0004-add-tls13-post-quantum-pre-shared-key.patch:495-524 | every PSK of the chosen suite is kept, wherever it stands and however often |
| PskLists.OfSuiteIsNoLonger | patches/gmssl/0004-add-tls13-post-quantum-pre-shared-key.patch:525-536 | the kept lists never need more bytes than the input buffers |
| PskLists.OfSuiteTwice | patches/gmssl/0004-add-tls13-post-quantum-pre-shared-key.patch:495-524 | a list of one suite is left as it is |
| PskLists.EntryBytes | patches/gmssl/0004-add-tls13-post-quantum-pre-shared-key.patch:504-515 | an entry is two bytes of length, the identity and four bytes of age (RFC 8446 section 4.2.11) |
| PskLists.KeepsExternal | patches/gmssl/0004-add-tls13-post-quantum-pre-shared-key.patch:495-536 | an all-external list stays all-external, and becomes empty iff no PSK has the suite |
| PqPskNegotiation.FlagsOfCalls | patches/gmssl/0004-add-tls13-post-quantum-pre-shared-key.patch:940-964 | after every sequence of setter calls require implies enabled, and each flag is on iff some call in force set it |
| PqPskNegotiation.TlsCtx.EnablePqPsk | patches/gmssl/0004-add-tls13-post-quantum-pre-shared-key.patch:940-951 | the enable setter's new flags, keeping require implies enabled; refused outside TLS 1.3 |
| PqPskNegotiation.TlsCtx.RequirePqPsk | patches/gmssl/0004-add-tls13-post-quantum-pre-shared-key.patch:953-964 | the require setter's new flags, keeping require implies enabled; refused outside TLS 1.3 |
| PqPskNegotiation.ClientConn.CheckConfig | patches/gmssl/0004-add-tls13-post-quantum-pre-shared-key.patch:407-432 | passes iff the flag is off, or there is no early data, all companions are sent, PSK-DHE is allowed and every PSK is external |
| PqPskNegotiation.ClientConn.SendClientHello | patches/gmssl/0004-add-tls13-post-quantum-pre-shared-key.patch:437-463 | a ClientHello leaves iff the configuration check passes, carries the flag iff enabled, and `offered` records it |
| PqPskNegotiation.ClientConn.RecvHelloRetryRequest | patches/gmssl/0004-add-tls13-post-quantum-pre-shared-key.patch:465-536 | the connection keeps the PSKs of the suite that the request names, and the configuration is whatever the unshown code makes of it |
| PqPskNegotiation.ClientConn.SendClientHelloAgain | patches/gmssl/0004-add-tls13-post-quantum-pre-shared-key.patch:538-565 | the second ClientHello repeats the flag, never carries early data, and fails when the flag was not offered before |
| PqPskNegotiation.ServerConn.WalkClientHello | patches/gmssl/0004-add-tls13-post-quantum-pre-shared-key.patch:685-730 | the walk succeeds iff the block is well formed with at most one, empty flag; what it hands over is the last data of each type, and whether pre_shared_key was last |
| PqPskNegotiation.ServerConn.SelectPsk | patches/gmssl/0004-add-tls13-post-quantum-pre-shared-key.patch:776-800 | whether the stage fails, what it selects and which modes are left, for every hello: a flagged one without a selected PSK loses both PSK modes |
| PqPskNegotiation.ServerConn.DecideMode | patches/gmssl/0004-add-tls13-post-quantum-pre-shared-key.patch:801-836 | negotiated iff eligible, selected and PSK-DHE still common, and then a chain, CERT_DHE and a group are there; otherwise the unshown branches decide over what is left |
| PqPskNegotiation.ServerConn.RecvClientHello | patches/gmssl/0004-add-tls13-post-quantum-pre-shared-key.patch:685-836 | every block is accepted iff `HelloOutcome` says so, and the six fields of the connection are then its outcome |
| PqPskNegotiation.ServerConn.DecideClientHello | patches/gmssl/0004-add-tls13-post-quantum-pre-shared-key.patch:731-836 | the stages after the walk give `ModesOutcome` |
| PqPskNegotiation.NegotiatedHello | patches/gmssl/0004-add-tls13-post-quantum-pre-shared-key.patch:685-836 | in terms of the list alone: the server ends negotiated iff the list holds exactly one empty 0xFF03, all companions with data, pre_shared_key at the end, no early data, the PSK is found and the modes allow PSK-DHE with a certificate |
| PqPskNegotiation.NegotiatedState | patches/gmssl/0004-add-tls13-post-quantum-pre-shared-key.patch:815-836 | the fields of a server that ends negotiated |
| PqPskNegotiation.OrdinaryHello | patches/gmssl/0004-add-tls13-post-quantum-pre-shared-key.patch:731-836 | a hello without 0xFF03 is accepted iff the server does not require the PSK and the unshown code takes it; that code alone decides PSK, modes and retry |
| PqPskNegotiation.FlaggedHello | patches/gmssl/0004-add-tls13-post-quantum-pre-shared-key.patch:731-836 | a hello with 0xFF03 that is not negotiated still needs all companions in place, and goes on without both PSK modes unless a PSK was selected |
| PqPskNegotiation.OneEmptyMeans | patches/gmssl/0004-add-tls13-post-quantum-pre-shared-key.patch:699-730 | the walk lets exactly one flag through, and only an empty one |
| PqPskNegotiation.PresentMeans | patches/gmssl/0004-add-tls13-post-quantum-pre-shared-key.patch:731-757 | a pointer that is not NULL is the last extension of its type, with data |
| PqPskNegotiation.ServerConn.RecvClientHelloAgain | patches/gmssl/0004-add-tls13-post-quantum-pre-shared-key.patch:837-857 | a second ClientHello is accepted iff the unshown code takes every extension and, with the flag offered, no pre_shared_key stands before the last place; modes, retry state and identity are then whatever that code says |
| PqPskNegotiation.ServerConn.SendServerHello | patches/gmssl/0004-add-tls13-post-quantum-pre-shared-key.patch:860-873 | ServerHello carries the flag iff negotiated and pre_shared_key iff a PSK is selected |
| PqPskNegotiation.ClientConn.WalkServerHello | patches/gmssl/0004-add-tls13-post-quantum-pre-shared-key.patch:567-616 | the walk succeeds iff the block is well formed, all types are known, and the flag is empty, single and solicited |
| PqPskNegotiation.ClientConn.DecideServerHello | patches/gmssl/0004-add-tls13-post-quantum-pre-shared-key.patch:618-673 | the decision over flag, key_share and pre_shared_key, both directions, and the state after it |
| PqPskNegotiation.ClientConn.RecvServerHello | patches/gmssl/0004-add-tls13-post-quantum-pre-shared-key.patch:567-673 | the client accepts a ServerHello iff it meets `ClientAccepts`; negotiated iff the flag is there, and then the selected identity is in range and external |
| PqPskNegotiation.AcceptedServerHello | patches/gmssl/0004-add-tls13-post-quantum-pre-shared-key.patch:567-673 | in terms of the list alone: accepted iff all types are known, at most one flag, empty, and flag, key_share and a two-byte identity in range fit what was offered and required |
| PqPskRuns.HelloCarries | patches/gmssl/0004-add-tls13-post-quantum-pre-shared-key.patch:437-463 | each extension type occurs in a ClientHello at most once, with the data that the configuration gives it |
| PqPskRuns.ServerHelloCarries | patches/gmssl/0004-add-tls13-post-quantum-pre-shared-key.patch:860-873 | the same for ServerHello |
| PqPskRuns.OfferMeetsServerChecks | patches/gmssl/0004-add-tls13-post-quantum-pre-shared-key.patch:407-432 | an offer that passes the client's check passes the server's checks iff signature_algorithms is sent as well |
| PqPskRuns.OfferIsNegotiated | patches/gmssl/0004-add-tls13-post-quantum-pre-shared-key.patch:731-836 | an enabled server that knows a PSK negotiates such an offer iff signature_algorithms is there |
| PqPskRuns.NegotiatedIsAccepted | patches/gmssl/0004-add-tls13-post-quantum-pre-shared-key.patch:567-673 | a client that offered accepts the ServerHello of a negotiated PSK iff its unshown code rejects nothing and the index is one of its own |
| PqPskRuns.WillingRunNegotiates | patches/gmssl/0004-add-tls13-post-quantum-pre-shared-key.patch:407-880 | a configured client and an enabled server that knows one of its PSKs, with unshown code that rejects nothing, come to negotiate iff signature_algorithms is sent |
| PqPskRuns.DefaultRun | patches/gmssl/0004-add-tls13-post-quantum-pre-shared-key.patch:407-836 | a client and a server without any of these settings get through with a certificate |
| PqPskRuns.RetryMayStillOffer | patches/gmssl/0004-add-tls13-post-quantum-pre-shared-key.patch:475-565 | after HelloRetryRequest the client may still offer the flag iff some PSK has the chosen suite |
| PqPskRuns.Retry | patches/gmssl/0004-add-tls13-post-quantum-pre-shared-key.patch:475-565 | both ends get through a HelloRetryRequest iff `RetryPasses`: the lists decode, the client may still offer, the server takes the second ClientHello; exactly the PSKs of the chosen suite are left and no PSK-only mode |
| PqPskRuns.Negotiate | patches/gmssl/0004-add-tls13-post-quantum-pre-shared-key.patch:439-880 | in every run over an unmodified channel, with or without HelloRetryRequest and with contents of its own for each message, a client that accepts agrees with the server on negotiated and on the identity; a client that offered uses a PSK iff negotiated; require and accepted implies negotiated; after a retry the selected PSK has the suite that the server chose; the accepted runs are exactly `AcceptedDirectly` and `AcceptedAfterRetry`, and the modes of both ends are given |
| PqPskRuns.Handshake | patches/gmssl/0004-add-tls13-post-quantum-pre-shared-key.patch:439-905 | a handshake completed with the PSK negotiated, or in the certificate mode, has Certificate, CertificateVerify and Finished next to each other, checked; in require mode every completed one is negotiated; an accepted run completes if all messages pass their checks |
| HandshakeStates.PathsMeetCertificate | patches/gmssl/0004-add-tls13-post-quantum-pre-shared-key.patch:875-905 | every path of either side from EncryptedExtensions or CertificateRequest to server Finished goes through Certificate and CertificateVerify iff the mode is CERT_DHE alone or the PSK is negotiated |
| HandshakeStates.FinishedIsLate | patches/gmssl/0004-add-tls13-post-quantum-pre-shared-key.patch:886-905 | from server Finished no path leads back to a certificate state |
| HandshakeStates.DoServerHandshake | patches/gmssl/0004-add-tls13-post-quantum-pre-shared-key.patch:886-905 | the server's state loop sends EncryptedExtensions, CertificateRequest if it asks, Certificate and CertificateVerify iff the mode is CERT_DHE alone or the PSK is negotiated, and Finished |
| HandshakeStates.DoClientHandshake | patches/gmssl/0004-add-tls13-post-quantum-pre-shared-key.patch:676-885 | the client's state loop accepts a message sequence iff it starts with that flight and every message of it passes its checks; a missing Certificate is an error |
| HandshakeStates.ServerFlightAccepted | patches/gmssl/0004-add-tls13-post-quantum-pre-shared-key.patch:875-905 | a client accepts a server's flight iff both sides agree on whether a certificate is needed |
| HandshakeStates.CertificateIsChecked | patches/gmssl/0004-add-tls13-post-quantum-pre-shared-key.patch:676-885 | in the certificate mode, and with the PSK negotiated, an accepted flight has checked Certificate, CertificateVerify and Finished next to each other in this order, and no Finished before them |
| HandshakeStates.NoCertificateExpected | patches/gmssl/0004-add-tls13-post-quantum-pre-shared-key.patch:875-885 | in the other modes without it, Finished comes where Certificate would |
| TlsExtensions.ParseOfEncodeExts | tools/pqkex_capture_demo.c:132-152 | reading an encoded extension list returns the list |
| TlsExtensions.EncodeOfParseExts | tools/pqkex_capture_demo.c:132-152 | a block that reads as a list is that list's encoding |
| TlsExtensions.ExtensionBytes | patches/gmssl/0004-add-tls13-post-quantum-pre-shared-key.patch:920-938 | an extension is two bytes of type, two of length, and its data |
| Pqkex.ParseOfEncodeKems | patches/gmssl/0001-add-experimental-tlcp-pqkex-capability.patch:141-197 | parse undoes encode for every list of 1 to `max` identifiers |
| Pqkex.EncodeOfParseKems | patches/gmssl/0001-add-experimental-tlcp-pqkex-capability.patch:161-197 | encode undoes parse for every accepted byte string |
| Pqkex.AcceptsExactlyEncodings | patches/gmssl/0001-add-experimental-tlcp-pqkex-capability.patch:161-197 | the parser accepts data iff it encodes some list of 1 to `max` identifiers |
| Pqkex.KemListBytes | patches/gmssl/0001-add-experimental-tlcp-pqkex-capability.patch:141-159 | the data is two bytes of length and two for each identifier in order |
| Pqkex.ExtToBytes | patches/gmssl/0001-add-experimental-tlcp-pqkex-capability.patch:141-159 | succeeds iff 1 to 8 identifiers are given; the output reads back as one extension with the encoded list |
| Pqkex.FromBytes | patches/gmssl/0001-add-experimental-tlcp-pqkex-capability.patch:161-197 | the array is filled with the parsed list and nothing past it; a refusal changes nothing |
| Pqkex.FirstSharedIsPreferred | patches/gmssl/0001-add-experimental-tlcp-pqkex-capability.patch:199-222 | the selected KEM is listed by both sides and no earlier client entry is; none iff nothing is shared |
| Pqkex.SelectKem | patches/gmssl/0001-add-experimental-tlcp-pqkex-capability.patch:199-222 | the nested loops return that entry, 0 when there is none, -1 for bad counts |
| Pqkex.PqkexCtx.SetKems | patches/gmssl/0001-add-experimental-tlcp-pqkex-capability.patch:121-139 | accepts exactly 1 to 8 supported identifiers in a TLCP context; a refusal changes nothing |
| Pqkex.PqkexConn.ProcessClientPqkex | patches/gmssl/0001-add-experimental-tlcp-pqkex-capability.patch:224-251 | accepts iff no extension was accepted before and the data parses; the new state is the selection; a rejected one changes nothing; it is one step of those sequences |
| Pqkex.AtMostOneAccepted | patches/gmssl/0001-add-experimental-tlcp-pqkex-capability.patch:121-251 | over every sequence of setter calls and extensions the connection ends as the first well-formed extension leaves it, with the server list of that moment |
| Pqkex.NegotiatedIffSelected | patches/gmssl/0001-add-experimental-tlcp-pqkex-capability.patch:121-251 | after every such sequence negotiated iff the selected KEM is not NONE, and the context lists only what the setter lets through |
| Pqkex.ProcessClientHelloExtensions | tools/pqkex_capture_demo.c:132-159 | the walk succeeds iff the block is well formed and holds exactly one PQKEX extension, which selects ML-KEM-768 |
| Pqkex.StopsTheWalk | tools/pqkex_capture_demo.c:144-151 | no block with a second or malformed PQKEX extension is accepted, whatever follows |
| Der.SignatureIsValid | src/composite_sig.c:14-47 | the step-by-step check decides decoded completely, positive and re-encoding to the same bytes |
| Der.AcceptsExactlyDer | src/composite_sig.c:14-47 | over any decoder that reads encodings, however lenient otherwise, the check accepts bytes iff they follow the DER rules, iff they are the encoding of some r > 0 and s > 0 |
| Der.DerRulesAreEncodings | src/composite_sig.c:14-47 | X.690 sections 8.1.3, 8.3 and 10.1 read as rules, and the encoder, describe the same byte strings |
| Der.EncodingIsUnique | src/composite_sig.c:34-43 | two pairs with the same encoding are equal |
| Der.NatContentsIsMinimal | src/composite_sig.c:14-47 | the encoder's INTEGER contents are minimal and have the right value |
| Der.MinimalIsNatContents | src/composite_sig.c:14-47 | minimal contents are what the encoder writes |
| Der.TakeOfTlv | src/composite_sig.c:14-47 | an encoded element is read back whatever follows it, in short and long length form |
| Der.TlvOfTake | src/composite_sig.c:14-47 | a strict reader accepts only what the encoder writes |
| Der.LenientDecodesEncodings | src/composite_sig.c:22-30 | a decoder with padded integers and lengths obeys the assumed law, so the law does not hide strictness |
| Der.PaddedFormIsRefused | src/composite_sig.c:22-43 | an input that such a decoder reads and the check refuses |
| CompositeKey.ParseOfSerializedKey | src/composite_key.c:95-184 | parsing a serialized key returns the key iff its point is on the curve |
| CompositeKey.SerializeOfParsedKey | src/composite_key.c:95-184 | serializing a parsed key returns the bytes |
| KeyOwnership.Generate | src/composite_key.c:45-78 | both slots get the new pair and share one object with exactly two references, or nothing changes; every reference count stays equal to the number of holders |
| KeyOwnership.MakePair | src/composite_key.c:52-77 | a generation that fails half-way releases every object it made |
| KeyOwnership.PrivateKeySlot.Cleanup | src/composite_key.c:18-27 | gives up exactly one reference, never a dead object, and clears the slot |
| KeyOwnership.PublicKeySlot.Cleanup | src/composite_key.c:36-43 | the same for public keys |
| KeyOwnership.ParseInto | src/composite_key.c:124-184 | the slot's old key is given up iff the bytes parse to a new one; a failure changes no slot and no count |
| KeyOwnership.SerializeFrom | src/composite_key.c:80-122 | the buffer filled by two copies is the serialized key, or nothing is returned |
| KeyOwnership.ParseAndSerialize | src/composite_key.c:95-184 | parsing bytes into a slot and serializing it gives the same bytes |
| KeyOwnership.BalanceIsUnique | src/composite_key.c:18-78 | the holders determine all counts, so nothing leaks and nothing is freed early |
| CompositeSignature.MPrimeIsInjective | src/composite_sig.c:49-105 | equal M' implies equal context and equal digest, for contexts of 0 to 255 bytes |
| CompositeSignature.BuildMessage | src/composite_sig.c:49-105 | writing at the moving offset gives M' and its length; refused for longer contexts |
| CompositeSignature.SerializeSignature | src/composite_sig.c:107-137 | joins the parts iff the first has 2420 bytes and the second is canonical |
| CompositeSignature.ParseOfSerialize | src/composite_sig.c:107-168 | parse undoes serialize |
| CompositeSignature.SerializeOfParse | src/composite_sig.c:107-168 | serialize undoes parse |
| CompositeSignature.ParsesIffDer | src/composite_sig.c:139-168 | bytes parse iff they are 2420 bytes and the DER of a positive pair |
| CompositeSignature.ParseSignature | src/composite_sig.c:139-168 | the parts join to the input and serialize back to it; on failure both outputs are empty |
| CompositeSignature.SignMessage | src/composite_sig.c:170-210 | both parts sign the same M' and the result parses |
| CompositeSignature.VerifyDetailed | src/composite_sig.c:212-254 | each flag of the result and the overall verdict, which is their strict conjunction over one M' |
| CompositeSignature.SignedVerifies | src/composite_sig.c:170-254 | what a key signs, its partner verifies, for every message and context |
| LegacySignature.HybridSign | src/hybrid_sign.c:29-85 | succeeds iff composite signing does; rejoining the parts gives the composite signature; a failure leaves the output cleared |
| LegacySignature.HybridVerify | src/hybrid_sign.c:87-117 | accepts iff the rejoined parts verify under the empty context |
| LegacySignature.LegacyAgrees | src/hybrid_sign.c:87-117 | on the parts of any composite signature both interfaces give the same verdict; parts that do not join are refused |
| KeyContainer.U32RoundTrip | src/hybrid_key_store.c:151-165 | put and get undo each other for every 32-bit value and every four bytes |
| KeyContainer.U32IsBigEndian | src/hybrid_key_store.c:151-165 | they are big-endian encoding and value |
| KeyContainer.EncryptPayload | src/hybrid_key_store.c:335-392 | the buffer ends as the container iff every library call succeeds with the right sizes |
| KeyContainer.DecryptPayload | src/hybrid_key_store.c:433-487 | every field read at its offset; the result is what the file opens to |
| KeyContainer.ContainerOpens | src/hybrid_key_store.c:335-487 | a container opens under its passphrase, however long, to the keys put into it |
| KeyContainer.ContainerLayout | src/hybrid_key_store.c:335-392 | every field of a container at its offset, the header as associated data, and what is sealed |
| KeyContainer.OpensMeans | src/hybrid_key_store.c:433-487 | a file opens to two keys iff the header is right and the body unseals under the key of its salt to the plaintext magic and those keys |
| KeyContainer.OpensOnlyWithHeader | src/hybrid_key_store.c:433-487 | a file that opens has exactly the fixed header of its salt and IV |
| KeyStore.WriteAll | src/hybrid_key_store.c:178-190 | success means the whole data was written; at every moment the file is absent or a prefix and no other file differs |
| KeyStore.ReadAll | src/hybrid_key_store.c:192-204 | returns exactly the first bytes, or fails only on a fault or a short file |
| KeyStore.SaveSm2 | src/hybrid_key_store.c:219-261 | creates the file only if absent; a failure without a failed unlink restores the files |
| KeyStore.SaveDilithium | src/hybrid_key_store.c:394-431 | the same for the container, including every intermediate state |
| KeyStore.KeypairSelfTest | src/hybrid_key_store.c:539-555 | passes iff a signature over the challenge verifies |
| KeyStore.RemoveBoth | src/hybrid_key_store.c:590-597 | the cleanup keeps the crash invariant after each unlink and removes both files when unlinks work |
| KeyStore.Save | src/hybrid_key_store.c:557-600 | for every passphrase a crash after any operation leaves a store that loads to nothing or to the pair; a successful save loads back iff the passphrase fits the PEM reader's buffer and the key passes the loader's checks; a failed save without a failed unlink restores the files; a store that is not MISSING is never changed; without faults it succeeds iff passphrase, self-test and encryption do |
| KeyStore.SavedPairComesBack | src/hybrid_key_store.c:557-650 | saved files give the caller's own pair back iff the key reloads and the caller's SM2 public key is the one that belongs to the private key |
| KeyStore.LongPassphraseLoadsNothing | src/hybrid_key_store.c:67-76 | a passphrase longer than the callback's buffer loads nothing from any files, and some such passphrase passes passphrase_valid |
| KeyStore.LoadSm2 | src/hybrid_key_store.c:206-293 | a private key is loaded iff the callback gives the passphrase, the file decodes, the type is SM2 and the private-key check passes |
| KeyStore.MidSaveIsAllOrNothing | src/hybrid_key_store.c:489-600 | every state that saving may leave behind loads to nothing or to the pair |
| KeyStore.Load | src/hybrid_key_store.c:602-650 | returns exactly the stored pair and only if it passes the self-test; without faults fails only when nothing is stored or the self-test fails |
| KeyStore.SaveSm2Store | src/hybrid_key_store.c:295-315 | the SM2-only store never replaces a file and changes no other file; after success the key loads back iff the passphrase fits the reader's buffer and the key passes the loader's checks; without faults it succeeds iff passphrase and key type are valid |
| KeyLifecycle.PrepareKeys | tools/generate_demo_chain.c:121-163 | generates only from empty stores and then each store holds its own pair, loads only complete ones and returns what they hold, refuses half-present ones; every crash state is an allowed one; without faults the result is the plan |
| KeyLifecycle.PrepareEncryptionKey | tools/generate_demo_chain.c:166-200 | an existing encryption key is never written; a fresh CA with an old encryption key is refused; the key in use is the stored one; without faults the result is the plan |
| KeyLifecycle.Run | tools/generate_demo_chain.c:121-235 | after any failure or crash the files are allowed ones; a half-present pair makes the run fail, and so does an existing pair with a passphrase that does not fit the reader's buffer; after success on an empty root the CA store holds the CA pair and the server store the server pair; with existing keys the pairs in use are the stored ones; without faults it succeeds iff planned |
| KeyLifecycle.PlanMeans | tools/generate_demo_chain.c:121-163 | when keys are planned: both pairs generated, tested and encrypted from empty stores; both stores opened, tested and matched from complete ones; never otherwise |
| KeyLifecycle.KeysAreNeverReplaced | tools/generate_demo_chain.c:121-163 | over every sequence of runs and crashes, once a CA or server key file exists none is created, replaced or removed, and a half-present store stays half-present |
| KeyLifecycle.CaAlwaysFirst | tools/generate_demo_chain.c:121-163 | from an empty root, server keys never stand without complete CA keys |
| KeyLifecycle.EncryptionKeyIsNeverReplaced | tools/generate_demo_chain.c:166-200 | over every sequence an existing encryption key file keeps its content |
| CertificateBuilder.TbsBuilder.BuildRootExtensions | src/hybrid_x509.c:347-358 | the pushes give the root profile |
| CertificateBuilder.TbsBuilder.BuildServerExtensions | src/hybrid_x509.c:360-388 | the pushes give the server profile, refused when the DNS name does not fit the buffer |
| CertificateBuilder.TbsBuilder.BuildEncryptionExtensions | src/hybrid_x509.c:390-405 | the pushes give the encryption profile |
| CertificateBuilder.TbsBuilder.SetFields | src/hybrid_x509.c:407-490 | the fields that all three kinds share, keeping the extensions; refused when a time cannot be written down |
| CertificateBuilder.CreateRoot | src/hybrid_x509.c:552-566 | the certificate signed over the root TBS |
| CertificateBuilder.CreateServer | src/hybrid_x509.c:568-588 | the certificate signed over the server TBS |
| CertificateBuilder.CreateEncryption | src/hybrid_x509.c:590-612 | the certificate signed over the encryption TBS |
| CertificateVerifier.EkuIsValid | src/hybrid_chain.c:91-109 | the loop finds serverAuth iff the single EKU extension lists it |
| CertificateVerifier.SanIsValid | src/hybrid_chain.c:111-131 | the loop finds a non-empty DNS name iff there is one |
| CertificateVerifier.CertResult.VerifySignature | src/hybrid_chain.c:177-202 | the composite flag iff the TBS signature verifies, and then all component flags |
| CertificateVerifier.CertResult.AddSignature | src/hybrid_chain.c:177-247 | the same under the issuer's key, leaving the profile checks alone |
| CertificateVerifier.VerifyRoot | src/hybrid_chain.c:204-247 | valid iff identity, time, constraints, extensions, key and self-signature all hold; valid implies every signature flag, and the composite flag is the self-signature |
| CertificateVerifier.VerifyServer | src/hybrid_chain.c:249-297 | valid iff all server checks against the issuer hold; valid implies every signature flag, and the composite flag is the issuer's signature |
| CertificateVerifier.VerifyEncryption | src/hybrid_chain.c:299-347 | valid iff all encryption checks against the issuer hold; valid implies every signature flag, and the composite flag is the issuer's signature |
| CertificateVerifier.VerifyChain | src/hybrid_chain.c:349-367 | valid iff root and server are |
| CertificateVerifier.RolesAreDisjoint | src/hybrid_chain.c:25-89 | no certificate meets the constraints of two roles |
| CertificateVerifier.RootMeans | src/hybrid_chain.c:204-247 | in terms of fields: own issuer, window, CA constraints, marker and algorithms, key identifier, composite key, self-signature |
| CertificateVerifier.ServerMeans | src/hybrid_chain.c:249-297 | in terms of fields: issuer's name, window, constraints of both, EKU, SAN, key identifiers, marker and algorithms, composite key, issuer's signature |
| CertificateVerifier.EncryptionMeans | src/hybrid_chain.c:299-347 | the same for the encryption certificate and its SM2 key on the curve |
| CertificateVerifier.ConstraintsMean | src/hybrid_chain.c:25-61 | one critical BasicConstraints with the flag, and of the usage bits looked at exactly keyCertSign and cRLSign for a CA, exactly digitalSignature for a server |
| CertificateVerifier.EncryptionConstraintsMean | src/hybrid_chain.c:63-89 | exactly keyEncipherment and keyAgreement of the bits looked at, and no CA |
| CertificateVerifier.ServerExtensionsMean | src/hybrid_chain.c:91-175 | the EKU lists serverAuth, the SAN a non-empty DNS name, and the key identifiers link |
| CertificateVerifier.LinkMeans | src/hybrid_chain.c:144-175 | the authority key identifier is the issuer's non-empty subject key identifier |
| CertificateVerifier.SignatureMeans | src/hybrid_chain.c:177-202 | the issuer's composite key parses and the TBS verifies under it with the certificate's signature bits |
| CertificateVerifier.UniqueMeans | src/hybrid_chain.c:25-61 | an extension counts iff its OID occurs exactly once |
| CertificateVerifier.ForgeryIsRefused | src/hybrid_chain.c:177-367 | signature bits that do not verify under the issuer's key make every verifier refuse, whatever else the certificate says |
| IssuedCertificates.SignedTbs | src/hybrid_x509.c:492-550 | what sign_tbs returns for a TBS that the builder makes carries that TBS, the composite algorithm and a signature that verifies under the CA |
| IssuedCertificates.RootIsPlain | src/hybrid_x509.c:407-450 | every root TBS is one of the records on which encoder and decoder are asked to agree |
| IssuedCertificates.ServerIsPlain | src/hybrid_x509.c:407-450 | the same for server TBSs under such an issuer |
| IssuedCertificates.EncryptionIsPlain | src/hybrid_x509.c:452-490 | the same for encryption TBSs |
| IssuedCertificates.RootFacts | src/hybrid_x509.c:347-450 | a built root gives back the CA key and key identifier and meets the CA constraints |
| IssuedCertificates.ServerFacts | src/hybrid_x509.c:360-388 | a built server profile passes constraints, EKU, SAN and marker, and its AKI is the CA's identifier |
| IssuedCertificates.EncryptionFacts | src/hybrid_x509.c:390-405 | a built encryption profile passes its constraints and marker, and its AKI is the CA's identifier |
| IssuedCertificates.RootAccepted | src/hybrid_x509.c:552-566 | a root built from a usable CA pair is accepted exactly inside its window, for every name, time and nonce |
| IssuedCertificates.ServerAccepted | src/hybrid_x509.c:568-588 | a server certificate built under that root with a plain DNS name is accepted exactly inside its window |
| IssuedCertificates.EncryptionAccepted | src/hybrid_x509.c:590-612 | the same for the encryption certificate and its plain SM2 key |
| IssuedCertificates.ChainIssuedAndAccepted | src/hybrid_x509.c:407-588 | with library calls that do their work both certificates come out iff their names are non-empty and taken by the library and their times can be written down, and the chain then verifies exactly while both are in their windows |
| IssuedCertificates.EncryptionIssued | src/hybrid_x509.c:452-612 | the encryption certificate comes out under the same condition |
| IssuedCertificates.RootContents | src/hybrid_x509.c:407-566 | an issued root certifies the CA's key in its own name, with its serial, window and key identifier |
| IssuedCertificates.ServerContents | src/hybrid_x509.c:407-588 | an issued server certificate certifies the server's key, under the given common name and DNS name, in the issuer's name, with both key identifiers |
| IssuedCertificates.EncryptionContents | src/hybrid_x509.c:452-612 | an issued encryption certificate certifies the given SM2 key |
| RawCertificates.GetByIndex | patches/gmssl/0002-integrate-tlcp-composite-certificate-verification.patch:217-250 | returns the element iff it stands before the first malformed one; 0 iff the index is past the end of a well-formed chain |
| RawCertificates.IndexAgreesWithSplit | patches/gmssl/0002-integrate-tlcp-composite-certificate-verification.patch:229-250 | for every chain and index, indexing agrees with splitting into DER SEQUENCEs |
| RawCertificates.LeadingOfPrefix | patches/gmssl/0002-integrate-tlcp-composite-certificate-verification.patch:229-250 | the elements before the first malformed one are all found |
| RawCertificates.SplitOfJoin | patches/gmssl/0002-integrate-tlcp-composite-certificate-verification.patch:217-227 | a concatenation of elements splits into those elements |
| RawCertificates.JoinOfSplit | patches/gmssl/0002-integrate-tlcp-composite-certificate-verification.patch:217-227 | joining a split gives the bytes, and every part is one element |
| RawCertificates.TakeBefore | patches/gmssl/0002-integrate-tlcp-composite-certificate-verification.patch:217-227 | elements delimit themselves |
| RawCertificates.EncodeChain | patches/gmssl/0002-integrate-tlcp-composite-certificate-verification.patch:252-264 | the sender's loop produces the certificate_list or fails |
| RawCertificates.DecodeChain | patches/gmssl/0002-integrate-tlcp-composite-certificate-verification.patch:265-275 | the receiver's loop accepts iff each entry is exactly one element |
| RawCertificates.ChainSurvives | patches/gmssl/0002-integrate-tlcp-composite-certificate-verification.patch:252-275 | encoding a chain into the list and decoding it returns the same bytes (RFC 5246 section 7.4.2) |
| RawCertificates.ListSurvives | patches/gmssl/0002-integrate-tlcp-composite-certificate-verification.patch:252-275 | what is received is a chain whose list is the received one |
| RawCertificates.SendableIffChain | patches/gmssl/0002-integrate-tlcp-composite-certificate-verification.patch:252-264 | bytes can be sent iff they split into elements |
| RawCertificates.CertsFromPem | patches/gmssl/0002-integrate-tlcp-composite-certificate-verification.patch:285-320 | succeeds iff every block is one element and all fit; the buffer then splits into the blocks; used never exceeds the capacity and nothing behind it changes |
| TlcpAdapter.ContainsCompositeOid | src/tlcp_hybrid_cert_adapter.c:17-31 | the scan finds the OID iff the input is something before it, the OID, and something after |
| TlcpAdapter.GetSm2SignPublicKey | src/tlcp_hybrid_cert_adapter.c:102-121 | writes the SM2 half iff the certificate decodes strictly with a composite key; otherwise the buffer is unchanged |
| TlcpAdapter.VerifyDer | src/tlcp_hybrid_cert_adapter.c:123-189 | NOT_APPLICABLE iff the input decodes with neither algorithm composite, or does not decode and does not contain the OID; VALID iff chain, host name and key all hold; what the key buffer then holds |
| TlcpAdapter.VerifyCallback | src/tlcp_hybrid_cert_adapter.c:235-298 | VALID iff both certificates verify under the configured anchor with the same subject and issuer |
| TlcpAdapter.ValidMeans | src/tlcp_hybrid_cert_adapter.c:235-298 | VALID means two different certificates, both verified under one trust anchor, with matching names |
| TlcpAdapter.IssuedChainIsValid | src/tlcp_hybrid_cert_adapter.c:235-298 | the chain of a server's two certificates that one CA issued is accepted, with its root as anchor, exactly while they are in their window, if the host name matches |
| TlcpAdapter.PointIsSm2Half | src/tlcp_hybrid_cert_adapter.c:102-121 | the 65 bytes are the SM2 half of the certificate's key |
| TlcpAdapter.RolesExclude | src/hybrid_chain.c:25-89 | signing, encryption and root certificates are pairwise different |
| TlcpAdapter.ClassificationsAgree | src/tlcp_hybrid_cert_adapter.c:251-264 | on the bytes of one certificate or of none, callback and verify_der classify alike iff the bytes decode or do not contain the OID |
| TlcpAdapter.UndecodableIsNeverRecognized | src/tlcp_hybrid_cert_adapter.c:254-264 | a chain whose first certificate does not decode is never recognized by the callback |
| TlcpAdapter.WrappedOidDiffers | src/tlcp_hybrid_cert_adapter.c:251-264 | the OID inside a SEQUENCE is an input on which they differ |
| TlcpPolicy.TlcpCtx.SetHybridVerify | patches/gmssl/0002-integrate-tlcp-composite-certificate-verification.patch:412-423 | strict mode only ever together with a callback; a refusal changes nothing |
| TlcpPolicy.TlcpConn.RecvServerCertificate | patches/gmssl/0002-integrate-tlcp-composite-certificate-verification.patch:101-152 | return value, whether the ordinary verifier is reached, and the whole new state, for every message |
| TlcpPolicy.TlcpConn.KeyForServerKeyExchange | patches/gmssl/0002-integrate-tlcp-composite-certificate-verification.patch:154-181 | the key chosen from the connection state |
| TlcpPolicy.LatestDecides | patches/gmssl/0002-integrate-tlcp-composite-certificate-verification.patch:101-181 | over every sequence of Certificate messages ServerKeyExchange uses the composite component iff the latest was VALID, and it is that message's key |
| TlcpPolicy.ReceiveWithAdapter | patches/gmssl/0002-integrate-tlcp-composite-certificate-verification.patch:101-181 | with the adapter as callback the ordinary verifier is reached iff the chain is not recognized and the mode is compatible; the connection is composite iff the chain verified completely, and then has its key; it is accepted iff one of the two succeeds |
| TlcpPolicy.ReceiveWrappedOid | patches/gmssl/0002-integrate-tlcp-composite-certificate-verification.patch:101-152 | the recognized but malformed input reaches the ordinary verifier of a compatible client and is refused by a strict one |
| Statistics.SplitDivision | tools/benchmark_composite_verify.c:126-140 | quotient and remainder parts add up to ceil(count * num / den) |
| Statistics.RankInTwoParts | tools/benchmark_composite_verify.c:126-140 | the two-part computation is max(1, ceil(count * num / den)) |
| Statistics.RankInRange | tools/benchmark_composite_verify.c:126-140 | the rank is between 1 and count |
| Statistics.RankFits | tools/benchmark_composite_verify.c:126-140 | intermediate values stay below count and den * (num + 1) |
| Statistics.RankIsCeiling | tools/benchmark_composite_verify.c:126-140 | the rank is the least one, at least 1, whose den-fold is at least count * num |
| Statistics.ComputeRank | tools/benchmark_composite_verify.c:126-138 | 64-bit arithmetic without overflow gives the rank |
| Statistics.NearestRank | tools/benchmark_composite_verify.c:126-140 | the value returned is the sample at that rank |
| Statistics.RankMeaning | tools/benchmark_composite_verify.c:126-140 | in sorted samples at least rank of them are at most the result and fewer are strictly below |
| Statistics.CountOfPermutation | tools/benchmark_composite_verify.c:190-215 | sorting does not change how many samples are below a bound |
| Statistics.Median | tools/benchmark_composite_verify.c:195-204 | the parity-corrected sum of halves is floor((a + b) / 2) without overflow, or the middle sample |
| Statistics.MedianMeaning | tools/benchmark_composite_verify.c:195-204 | no more than half of the samples are below the median and at least half are not above it |
| Statistics.MeanIsBetween | tools/benchmark_composite_verify.c:205-215 | the mean lies between the smallest and the largest sample |
| Statistics.Measure | tools/benchmark_composite_verify.c:172-192 | the loop yields the durations and their sum, or stops at the first bad timing |
| Statistics.Summarize | tools/benchmark_composite_verify.c:194-215 | mean, median, percentiles, minimum and maximum are those of the samples in whatever order they came |
| Statistics.RunBenchmark | tools/benchmark_composite_verify.c:142-218 | a result iff every warm-up call verified and every timing is good; it describes the measured durations |

## Left out

- SM2, SM3, SHA-256, Dilithium2, AES-GCM, PBKDF2 and PEM internals: functions in a record, with the laws named at each theorem.
- ASN.1 templates and X.509 parsing: certificates are records with an abstract encode/decode pair; DER itself is modelled for (r, s) and for raw element splitting. X.690 puts no bound on lengths, so neither does the encoder here.
- Allocation failures and NULL arguments; a NULL pointer to data is the empty byte string.
- Hidden parts of the GmSSL functions that the patches change: universally quantified arguments. The receivers take any list of extensions; the hellos that the model sends hold only the extensions that matter to the flag, with pre_shared_key last (RFC 8446 section 4.2.11). Whether an identity may be empty follows RFC 8446.
- `tls13_process_client_pre_shared_key_external` internals (binder checks): its outcome is an argument.
- PqPskNegotiation.ClientConn.RecvHelloRetryRequest: where the unshown code calls the update of the PSK lists is not shown; it is taken to do so once, before the second ClientHello.
- TlcpPolicy.TlcpConn.RecvServerCertificate: what the function does after the shown hunk is not modelled, and the ordinary verifier's answer is an argument.
- Alerts, verbose output, record protection, key schedule and key derivation.
- Concurrent savers on one directory, durability of directory entries, permission bits and symbolic links: permission checks are operations that may fail.
- KeyStore.RemoveBoth: unlinks by name, so it does not model another process that creates the same file in between.
- Zeroing of freed memory, constant-time behaviour, `composite_public_keys_equal`.
- `src/mlkem.c`, `src/sm2_wrapper.c`, `src/dilithium_wrapper.c`: argument checks around library calls.
- The report structures of the adapter, except the fields that its result depends on.
- `qsort` is a function that returns an ordered permutation; sorting in place is not modelled.
- Sockets, processes, printing, CSV and Markdown output, argument parsing; rounding of the benchmark's floating-point mean, which is a real number here.
- Patch 0003, data files, test vectors and build files.
