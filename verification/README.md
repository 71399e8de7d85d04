# Verified model of Fabric's policy, membership and crypto cores

This project models the parts of Fabric in which a small slip would silently change who may
sign, who is a member or which key is meant, and proves what those parts promise:

- **Signature policies** (`common/cauthdsl`). A policy tree is compiled into an evaluator that
  consumes signature positions greedily. Every acceptance is backed by a satisfied sub-tree whose
  leaves sit on distinct, newly marked positions. On what identities of MSPs can sign, where each
  signature speaks for one organisation, acceptance is the plain Boolean reading whenever no gate
  that asks for two or more names an organisation in two of its children, and with distinct
  principals only then; order of signatures and additional signatures then do not matter. The
  evaluator itself takes any deserializer, and a signature might satisfy principals of several
  organisations. For that case too there are exact conditions: the Boolean reading holds on all lists
  exactly when the policy is false without the principals that alone meet it; for distinct principals
  completeness, Boolean reading, order independence and monotonicity (more signatures, in any order)
  each hold exactly when, parts that can never be met aside, no gate asks for more than one child. The
  AND/OR language is translated in three passes, the last of which numbers principals through a
  mutable context; the translation succeeds exactly on well-formed expressions and preserves their
  meaning.
- **Membership service** (`msp`). `Setup` fills an object phase by phase. It returns nil exactly when
  the configuration has a ready state, and a configuration determines every later verdict; the current
  time matters for TLS CAs alone. Whoever satisfies any principal afterwards also validates, although
  the admin branch of the check only compares certificates.
- **Signatures and keys** (`bccsp/sw`, `bccsp/pkcs11`). Low-S normalisation, key re-randomisation over
  a commutative group with a base point of known order, fixed-width codecs, and PKCS#7 padding
  (section 6.3 of RFC 5652) with CBC (section 6.2 of NIST SP 800-38A) working in place in the
  caller's buffer.
- **Two concurrent protocols** as state machines over all interleavings: the PKCS#11 session cache
  and the endorser fan-out.
- **The file key store**, whose directory is an index from subject key identifiers to key files.

Code that computes values is modelled by functions; code that updates fields, arrays, buffers or
big integers is modelled by classes and methods proved against those functions.

Library code enters as function-valued parameters with stated laws. `Certificates.X509Law` says how
certificates parse and print. `MspState.ChainLaw` says that a chain starts with the certificate and
otherwise draws on the pools. `Curve.Lawful` gives a commutative group in which n times any point is
zero, a base point of order n, and an x-coordinate that a point shares with its opposite.
`AesCbc.Permutation` makes the block cipher invertible. `LowS.CodecLaw` and `FileKeyStore.CodecLaw` let DER and key files decode what they
encode. The OU theorems also use prefix-free certificate encodings and a hash that tells the paths of
the configured CAs from that of the identity at hand. That a key is found again by its public part
assumes that no two of the keys stored share an identifier without sharing that part. Chain building
is a function of the certificate, the pools and the time. For identities and their CAs the code pins
the time to one second into the certificate's validity; for TLS CAs it is the current time, an
argument of `Setup`.

Points at which the code does something a reader may not expect, and the model follows the code:

- `setupCAs` already loads the admins, and `setupAdmins` loads them again.
- `getIdentityFromConf` overwrites the key-import error before looking at it, while
  `deserializeIdentityInternal` checks it. The two are modelled differently.
- `SignatureToLowS` checks no upper bound on s. Its result is in low-S form, and stable under a second
  conversion, exactly when s is below the order (`LowS.LowSignatureIdempotentIff`).
- The PKCS#11 layout is `BitSize/8` bytes wide. The exact condition under which every signature
  round trips is proved (`BigEndian.LayoutWideEnoughIff`); P-521 does not meet it (`BigEndian.P521TooNarrow`).
- A cipher text that is one block long makes unpadding index below zero. It is the only length that
  does (`AesCbc.DecryptPanicsIff`).

## Model

| member | source | states |
|---|---|---|
| `PolicyEvaluation.CompileExact` | fabric/common/cauthdsl/cauthdsl.go:34-113 | compilation succeeds exactly when every node is understood and every index names an identity; the leaves are the named identities in order |
| `PolicyEvaluation.CompileHolds` | fabric/common/cauthdsl/cauthdsl.go:34-113 | whatever compiles reads, as a threshold formula, as the policy did: a gate by counting its rules against N, a leaf by the principal its index names |
| `PolicyEvaluation.CompiledAccepts` | fabric/common/cauthdsl/cauthdsl.go:34-113 | a compiled policy accepts only signatures the policy holds for, and all of them when no signature satisfies two leaves |
| `PolicyEvaluation.CompileMirrors` | fabric/common/cauthdsl/cauthdsl.go:34-113 | compiling yields the one evaluator with the same thresholds, order and principals, exactly when there is one |
| `PolicyEvaluation.FirstUnused` | fabric/common/cauthdsl/cauthdsl.go:76-109 | a leaf takes the first unused position that satisfies it, and skips only positions that are used or do not |
| `PolicyEvaluation.RunAllConcat` | fabric/common/cauthdsl/cauthdsl.go:50-70 | running children one after another threads the marks: results of two lists of children join |
| `PolicyEvaluation.RejectedChildLeavesNoTrace` | fabric/common/cauthdsl/cauthdsl.go:50-70 | dropping a rejected child from a gate changes neither the verdict nor the marks |
| `PolicyEvaluation.Sound` | fabric/common/cauthdsl/cauthdsl.go:34-113 | an accepted run yields a satisfied sub-tree with at least N children at every gate, one distinct matching position per leaf, and marks exactly those positions, none of which was used before |
| `PolicyEvaluation.EvidenceHolds` | fabric/common/cauthdsl/cauthdsl.go:50-109 | any such evidence makes the tree true as a Boolean threshold formula |
| `PolicyEvaluation.AcceptanceImpliesHolds` | fabric/common/cauthdsl/cauthdsl.go:50-109 | acceptance from any marks implies the Boolean threshold reading |
| `PolicyEvaluation.ExactFrom` | fabric/common/cauthdsl/cauthdsl.go:50-109 | when no position serves two leaves and none of the tree's positions is used, acceptance equals the Boolean reading, and only positions of the tree's leaves get marked |
| `PolicyEvaluation.ExactWhenDisjoint` | fabric/common/cauthdsl/cauthdsl.go:50-109 | from fresh marks and without contention, acceptance equals the Boolean reading |
| `PolicyEvaluation.HoldsByPresence` | fabric/common/cauthdsl/cauthdsl.go:50-109 | the Boolean reading depends only on which of its principals are present |
| `PolicyEvaluation.HoldsMonotone` | fabric/common/cauthdsl/cauthdsl.go:50-109 | the Boolean reading survives additional signatures |
| `PolicyEvaluation.MonotoneWhenDisjoint` | fabric/common/cauthdsl/cauthdsl.go:50-109 | adding signatures that cause no contention never turns acceptance into rejection |
| `PolicyEvaluation.OrderIrrelevantWhenDisjoint` | fabric/common/cauthdsl/cauthdsl.go:50-109 | without contention, permuting the signatures does not change the verdict |
| `PolicyExactness.SingleThresholdExact` | fabric/common/cauthdsl/cauthdsl.go:50-109 | a tree whose gates all ask for at most one child accepts exactly by its Boolean reading, with or without contention |
| `PolicyExactness.SatisfiableHolds` | fabric/common/cauthdsl/cauthdsl.go:34-113 | acceptance implies that some assignment of distinct positions exists, which implies the Boolean reading |
| `PolicyExactness.GreedyFollows` | fabric/common/cauthdsl/cauthdsl.go:50-109 | when only a tree's needed leaves are satisfiable, evaluation takes exactly their first matches, in order |
| `PolicyExactness.GateStarves` | fabric/common/cauthdsl/cauthdsl.go:50-70 | every reachable gate that needs two or more children rejects a computed signature list in which an early child takes what a later one needs |
| `PolicyExactness.GateFed` | fabric/common/cauthdsl/cauthdsl.go:50-70 | the same gate accepts the same signatures in another order |
| `PolicyExactness.GreedyGoesWrong` | fabric/common/cauthdsl/cauthdsl.go:50-109 | every live tree with distinct leaves and such a gate anywhere has a list it rejects although distinct matching positions exist, and a permutation of that list which it accepts |
| `PolicyExactness.SingleThresholdIsExact` | fabric/common/cauthdsl/cauthdsl.go:50-109 | gates of threshold one make evaluation complete, Boolean, order independent and monotone under more signatures in any order, on all signature lists |
| `PolicyExactness.ExactOnAllSignaturesIff` | fabric/common/cauthdsl/cauthdsl.go:50-109 | for trees whose gates can all be met and whose leaves are distinct, each of completeness, Boolean reading, order independence and monotonicity under more signatures in any order holds if and only if no gate asks for more than one child |
| `PolicyExactness.RepeatedLeavesNotMonotone` | fabric/common/cauthdsl/cauthdsl.go:50-109 | with repeated principals a concrete tree accepts two signatures and rejects them when a third is added |
| `PolicyPruning.PruneRun` | fabric/common/cauthdsl/cauthdsl.go:50-70 | cutting out gates that ask for more children than can be met changes neither verdict nor marks; a policy that is such a gate never accepts |
| `PolicyPruning.PruneSatisfiable` | fabric/common/cauthdsl/cauthdsl.go:50-109 | nor does it change whether distinct matching positions exist |
| `PolicyPruning.ExactIff` | fabric/common/cauthdsl/cauthdsl.go:50-109 | for every tree with distinct leaves and thresholds of at least one, reachable or not, each of the four properties holds if and only if the tree can never be met or its pruned form has only thresholds of one |
| `PolicyBoolean.AloneAccepted` | fabric/common/cauthdsl/cauthdsl.go:50-109 | a principal with only thresholds of one above it is accepted wherever it appears, whatever the other signatures |
| `PolicyBoolean.SinglePosition` | fabric/common/cauthdsl/cauthdsl.go:50-109 | evidence that uses one position only rests on such a principal |
| `PolicyBoolean.BooleanIfAlone` | fabric/common/cauthdsl/cauthdsl.go:50-109 | for every tree: if it is false without the principals that alone meet it, acceptance is its Boolean reading on all lists |
| `PolicyBoolean.ReadsAsBooleanIff` | fabric/common/cauthdsl/cauthdsl.go:50-109 | with thresholds of at least one, repeated principals and unreachable gates included, acceptance is the Boolean reading on all lists if and only if the tree is false without the principals that alone meet it |
| `PolicyBoolean.BooleanBringsRest` | fabric/common/cauthdsl/cauthdsl.go:50-109 | for every tree the Boolean reading brings completeness, order independence and monotonicity with it |
| `PolicyBoolean.TwoOfTheSame` | fabric/common/cauthdsl/cauthdsl.go:50-109 | two signatures of one principal: complete, though not Boolean and with a threshold of two, so distinctness cannot be dropped from the condition for completeness |
| `PolicyOrganisations.SeparatedIsExact` | fabric/common/cauthdsl/cauthdsl.go:50-109 | on signatures of one organisation each, for every tree, repeated leaves and any thresholds included: if gates that ask for two or more name no organisation in two children, acceptance is the Boolean reading |
| `PolicyOrganisations.SeparatedMonotone` | fabric/common/cauthdsl/cauthdsl.go:50-109 | such trees then do not depend on the order of the signatures and never lose acceptance by more of them |
| `PolicyOrganisations.EvidencePaysChoice` | fabric/common/cauthdsl/cauthdsl.go:50-109 | evidence confined to the leaves of a choice of exactly N children per gate takes a position for each of them |
| `PolicyOrganisations.UnseparatedGoesWrong` | fabric/common/cauthdsl/cauthdsl.go:50-109 | every live tree with distinct leaves and a gate of two or more that names an organisation in two children has signatures of one organisation each that make it true and that it rejects, there being too few positions for any evidence |
| `PolicyOrganisations.BooleanPerOrgIff` | fabric/common/cauthdsl/cauthdsl.go:50-109 | with distinct leaves and thresholds of at least one, acceptance is the Boolean reading on all such lists if and only if the tree can never be met or its pruned form has no such gate |
| `PolicyAppending.Steady` | fabric/common/cauthdsl/cauthdsl.go:50-109 | with thresholds of one, appended signatures never make a sub-policy take an earlier position it did not take before, nor lose its acceptance |
| `PolicyAppending.Keeps` | fabric/common/cauthdsl/cauthdsl.go:50-109 | where gates that may leave a child out have only thresholds of one beneath them, an accepted policy stays accepted and takes the same earlier positions |
| `PolicyAppending.AppendingKeepsAcceptance` | fabric/common/cauthdsl/cauthdsl.go:50-109 | appending any signatures keeps a policy accepted when each gate has only thresholds of one beneath it, or needs one of several policies of this kind, or needs all its sub-policies and only the last may take positions it did not take before |
| `PolicyAppending.AppendingCanReject` | fabric/common/cauthdsl/cauthdsl.go:50-109 | without that condition a policy with distinct principals accepts two signatures and rejects them when a third is appended |
| `PolicyEngine.RunLeaf` | fabric/common/cauthdsl/cauthdsl.go:76-109 | the loop over signed data that deserializes, checks the principal and verifies each unused entry, and marks the first success, computes the leaf's run on the `used` array |
| `PolicyEngine.RunEvaluator` | fabric/common/cauthdsl/cauthdsl.go:50-109 | copy, commit and discard of the scratch array per child compute exactly the run: same verdict, same final marks |
| `PolicyEngine.Evaluate` | fabric/common/cauthdsl/policy.go:68-78 | a nil policy rejects; otherwise the verdict is the evaluator's from fresh marks |
| `PolicyEngine.TableIff` | fabric/common/cauthdsl/cauthdsl.go:76-109 | a signed datum counts for a principal exactly when its identity deserializes, satisfies the principal and verifies the signature over the data |
| `PolicyEngine.NewPolicyIff` | fabric/common/cauthdsl/policy.go:42-61 | a policy is made of version 0 envelopes that compile, and of no others |
| `PolicyEngine.SignedByAnyOfGivenRole` | fabric/common/cauthdsl/cauthdsl_builder.go:117-138 | sorts the caller's array in place and returns the envelope of the sorted list |
| `PolicyEngine.AnyOfOrderIrrelevant` | fabric/common/cauthdsl/cauthdsl_builder.go:117-138 | permuting the organisations yields the identical envelope |
| `PolicyEngine.OneOfAcceptsIff` | fabric/common/cauthdsl/cauthdsl.go:50-109 | a one-of gate over any identities accepts exactly when some entry carries a valid signature of one of them |
| `PolicyEngine.AnyOfAcceptsIff` | fabric/common/cauthdsl/cauthdsl_builder.go:117-138 | the any-member or any-admin policy always compiles, and accepts exactly when some entry validly satisfies that role in some listed organisation |
| `PolicyParser.MatchPrincipalIff` | fabric/common/cauthdsl/policyparser.go:31-31 | the principal pattern accepts exactly the spellings of an organisation, a dot and a role, and recovers both |
| `PolicyParser.AndGate` | fabric/common/cauthdsl/policyparser.go:34-51 | the string built for AND is the code of the all-of gate over its arguments, or the error of the first bad argument |
| `PolicyParser.OrGate` | fabric/common/cauthdsl/policyparser.go:53-70 | the same for OR and the one-of gate |
| `PolicyParser.FirstPass` | fabric/common/cauthdsl/policyparser.go:72-92 | the first pass re-spells a gate with the context argument put in front |
| `PolicyParser.NumberingContext.SecondPass` | fabric/common/cauthdsl/policyparser.go:94-178 | the pass over one gate returns the policy and leaves the principals of the specification, keeping the counter equal to their number |
| `PolicyParser.EvaluateConnectives` | fabric/common/cauthdsl/policyparser.go:206-224 | evaluating a whole call tree, arguments first, computes the connective pass |
| `PolicyParser.EvaluateFirstPass` | fabric/common/cauthdsl/policyparser.go:226-248 | evaluating the spelled gates computes the marking pass |
| `PolicyParser.EvaluateSecondPass` | fabric/common/cauthdsl/policyparser.go:250-279 | evaluating the marked gates with one shared mutable context computes the numbering pass |
| `PolicyParser.FromString` | fabric/common/cauthdsl/policyparser.go:206-279 | the three passes in sequence, with their errors, give the envelope of the specification |
| `PolicyMeaning.DirectMeans` | fabric/common/cauthdsl/policyparser.go:34-70 | the direct translation (AND all, OR one) is true exactly when the expression is |
| `PolicyMeaning.ConnectIs` | fabric/common/cauthdsl/policyparser.go:34-70 | the connective pass succeeds exactly on trees without numbers and then spells AND as all-of and OR as one-of |
| `PolicyMeaning.MarkIs` | fabric/common/cauthdsl/policyparser.go:72-92 | the first pass succeeds exactly when every leaf spells a principal and only adds the context argument |
| `PolicyMeaning.CompileExtends` | fabric/common/cauthdsl/policyparser.go:94-178 | principals registered later do not change what earlier sub-policies mean |
| `PolicyMeaning.RegisterMeans` | fabric/common/cauthdsl/policyparser.go:94-178 | registering a gate's arguments only appends, and the sub-policies then compile to their direct translations |
| `PolicyMeaning.RegisterNumbers` | fabric/common/cauthdsl/policyparser.go:94-178 | a gate uses the indices of its sub-gates and one fresh index per own leaf, each once |
| `PolicyMeaning.NumberMeans` | fabric/common/cauthdsl/policyparser.go:94-178 | the second pass succeeds exactly when no gate is empty, and the policy compiles to the direct translation with each new index used once |
| `PolicyMeaning.NumberOrder` | fabric/common/cauthdsl/policyparser.go:94-178 | principals are registered inner gates first, then a gate's own leaves from left to right |
| `PolicyMeaning.FromStringPreservesMeaning` | fabric/common/cauthdsl/policyparser.go:206-279 | FromString succeeds exactly on well-formed expressions; its envelope compiles to the direct translation, lists the principals in registration order and uses every index once |
| `PolicyMeaning.AcceptedMeansExpression` | fabric/common/cauthdsl/policyparser.go:206-279 | text to verdict: an accepted signature list makes the expression true, and the converse holds without contention |
| `PolicyMeaning.AcceptsExactlyMeaningIff` | fabric/common/cauthdsl/policyparser.go:206-279 | under an arbitrary deserializer: acceptance of a well-formed expression equals its meaning on all lists if and only if it is false when all its principals are present but those that alone make it true |
| `PolicyMeaning.DistinctAcceptsExactlyMeaningIff` | fabric/common/cauthdsl/policyparser.go:206-279 | under an arbitrary deserializer and with no principal named twice: if and only if no AND has two or more arguments |
| `PolicyMeaning.ApartMeansExactly` | fabric/common/cauthdsl/policyparser.go:206-279 | on signatures of one organisation each, repeated principals included: if no AND names an organisation in two of its arguments, acceptance equals the meaning |
| `PolicyMeaning.MeaningPerOrgIff` | fabric/common/cauthdsl/policyparser.go:206-279 | with no principal named twice, acceptance equals the meaning on all such lists if and only if no AND names an organisation in two of its arguments |
| `PolicyMeaning.MeaningForMembersIff` | fabric/common/cauthdsl/policyparser.go:206-279 | the same if and only if on the narrower lists in which every admin is also a member, as long as at most one organisation is named in both roles |
| `PolicyMeaning.RolesCanRescue` | fabric/common/cauthdsl/policyparser.go:206-279 | with two organisations in both roles an expression can be exact on those lists although an AND names one of them twice |
| `BigEndian.ToBytesDecodes` | fabric/bccsp/pkcs11/pkcs11.go:330-356 | minimal big-endian bytes decode to the number |
| `BigEndian.ToBytesWidth` | fabric/bccsp/pkcs11/pkcs11.go:350-356 | a number fits k bytes exactly when it is below 256 to the k |
| `BigEndian.PaddedDecodes` | fabric/bccsp/utils/keys.go:102-104 | zero padding to any sufficient width keeps the width and the value |
| `BigEndian.JoinSignature` | fabric/bccsp/pkcs11/pkcs11.go:350-356 | the two copies into the signature buffer give the joined layout, or the slice panic when a half is too wide |
| `BigEndian.JoinFits` | fabric/bccsp/pkcs11/pkcs11.go:350-356 | what fits is laid out as R in the first half and S in the second, each padded with zeros in front |
| `BigEndian.JoinSplitIff` | fabric/bccsp/pkcs11/pkcs11.go:330-356 | splitting in halves undoes joining exactly when both numbers are below 256 to the byte size |
| `BigEndian.LayoutWideEnoughIff` | fabric/bccsp/pkcs11/pkcs11.go:350-356 | all signatures below the order round trip if and only if the order fits `BitSize/8` bytes |
| `BigEndian.WholeByteCurves` | fabric/bccsp/pkcs11/pkcs11.go:350-356 | that holds for every curve whose bit size is a multiple of eight |
| `BigEndian.PartialByteCurves` | fabric/bccsp/pkcs11/pkcs11.go:350-356 | a bit size that is no multiple of eight fails some signature of every order of that many bits |
| `BigEndian.P521TooNarrow` | fabric/bccsp/pkcs11/pkcs11.go:350-356 | P-521 with its 521-bit order is such a curve |
| `BigEndian.PadPrivateKey` | fabric/bccsp/utils/keys.go:102-104 | padding succeeds exactly when the scalar fits the order's width, and then holds the scalar padded to that width |
| `BigEndian.PrivateKeyRoundTrip` | fabric/bccsp/utils/keys.go:102-104 | every scalar below the order fits, fills ceil(bitlen(N)/8) bytes (section 3 of RFC 5915) and decodes to itself |
| `BigEndian.KeyWidthIsOrderWidth` | fabric/bccsp/utils/keys.go:102-104 | the computed width is the length of the order in bytes |
| `KeyDeriv.SwDerivePublic` | fabric/bccsp/sw/keyderiv.go:33-74 | the step-by-step public derivation adds the blinding multiple of the base point and refuses infinity |
| `KeyDeriv.SwDerivePrivate` | fabric/bccsp/sw/keyderiv.go:78-126 | on a matched pair, adding points gives the key whose scalar is d + k mod N with its own point, refused exactly when that is zero |
| `KeyDeriv.P11DerivePrivate` | fabric/bccsp/pkcs11/impl.go:211-263 | recomputing the point from the new scalar gives the same key as the software provider, refused when that provider refuses, when the token keeps the secret, when the curve has no identifier, or when the token refuses the import |
| `KeyDeriv.BlindIff` | fabric/bccsp/sw/keyderiv.go:51-55 | the blinding scalar is the one in 1..N-1 congruent to the expansion value plus one modulo N - 1 |
| `KeyDeriv.BlindsAlike` | fabric/bccsp/sw/keyderiv.go:51-55 | two expansion values blind alike exactly when they are congruent modulo N - 1 |
| `KeyDeriv.SumPoint` | fabric/bccsp/sw/keyderiv.go:105-120 | the sum of the two points is the point of d + k mod N, and is infinity exactly when that is zero |
| `KeyDeriv.DerivationKeepsPairs` | fabric/bccsp/sw/keyderiv.go:33-126 | a derived pair is matched with its scalar in 1..N-1; deriving the public key alone gives its public half; both refuse exactly when d + k is 0 mod N |
| `KeyDeriv.ChainScalar` | fabric/bccsp/sw/keyderiv.go:78-126 | after any chain of derivations the scalar is the first one plus all blinds, mod N |
| `KeyDeriv.ChainBreaksIff` | fabric/bccsp/sw/keyderiv.go:78-126 | a chain is refused exactly when some partial sum is 0 mod N |
| `KeyDeriv.ChainKeepsPairs` | fabric/bccsp/pkcs11/impl.go:151-263 | over every chain the pair stays matched and the public chain follows the private one, failures included |
| `LowS.IsLowS` | fabric/bccsp/sw/ecdsa.go:128-136 | answers whether s is at most half the order, and fails on an unknown curve |
| `LowS.ToLowS` | fabric/bccsp/sw/ecdsa.go:138-153 | overwrites its argument with the normal form and reports whether it changed it; an unknown curve leaves it alone |
| `LowS.SignatureVerifies` | fabric/bccsp/sw/ecdsa.go:91-107 | the verification equation holds of every pair made by ECDSA signing (section 4.1.3 of SEC 1) with a private scalar and a nonce |
| `LowS.NormalRangeIff` | fabric/bccsp/sw/ecdsa.go:138-153 | the normal form lies in 1..N/2 exactly when s lies in 1..N-1 |
| `LowS.NormalIdempotent` | fabric/bccsp/sw/ecdsa.go:138-153 | normalising twice is normalising once, for every integer |
| `LowS.NormalIdentifiesOpposites` | fabric/bccsp/sw/ecdsa.go:138-153 | two values share a normal form exactly when they are equal or add up to the order |
| `LowS.OppositeVerifies` | fabric/bccsp/sw/ecdsa.go:91-107 | the verification equation (section 4.1.4 of SEC 1) that holds for s also holds for N - s |
| `LowS.NormalKeepsVerification` | fabric/bccsp/sw/ecdsa.go:109-153 | normalisation does not change whether the verification equation holds |
| `LowS.UnmarshalIff` | fabric/bccsp/sw/ecdsa.go:51-75 | an encoded pair decodes exactly when both numbers are positive |
| `LowS.SignatureToLowS` | fabric/bccsp/sw/ecdsa.go:109-125 | decode, normalise, encode, with each error path |
| `LowS.LowSignatureForm` | fabric/bccsp/sw/ecdsa.go:109-125 | conversion succeeds on every signature that decodes for a known curve; the result decodes to the same R and the lower of S and N - S, or not at all when S is not below the order |
| `LowS.LowFormVerifies` | fabric/bccsp/sw/ecdsa.go:91-125 | the converted signature verifies exactly when the original does |
| `LowS.LowSignatureIdempotentIff` | fabric/bccsp/sw/ecdsa.go:109-125 | converting an encoded signature again changes nothing if and only if its s was below the order |
| `LowS.SignLowS` | fabric/bccsp/sw/ecdsa.go:77-89 | signing emits the normal form of the raw s |
| `LowS.P11SignLowS` | fabric/bccsp/pkcs11/ecdsa.go:76-96 | the inlined normalisation of the PKCS#11 provider emits the same signature |
| `LowS.SignedVerifies` | fabric/bccsp/sw/ecdsa.go:77-107 | what signing emits passes the verifier, including its low-S check |
| `LowS.SwVerifyIff` | fabric/bccsp/sw/ecdsa.go:91-107 | the verifier accepts exactly the encodings with S at most half the order that satisfy the equation, on a known curve |
| `LowS.OneFormAccepted` | fabric/bccsp/sw/ecdsa.go:91-107 | of a valid signature and its opposite the verifier accepts exactly one and calls the other high |
| `Certificates.SanitizeKeepsSignedBody` | fabric/msp/cert.go:81-121 | sanitising keeps the signed body and the algorithm, replaces the signature by its low form and re-parses to itself |
| `Certificates.SanitizeIdempotentIff` | fabric/msp/cert.go:81-121 | sanitising again changes nothing if and only if the signature's s was below the parent's order |
| `Certificates.LowAgainFixed` | fabric/msp/cert.go:81-121 | a second conversion, where it succeeds, gives the first one's result |
| `Certificates.SanitizeSucceedsIff` | fabric/msp/cert.go:81-121 | sanitising succeeds exactly when the parent's curve is known, the signature decodes and, if it changes, the certificate re-encodes |
| `Certificates.SanitizedIsLow` | fabric/msp/cert.go:81-121 | the sanitised certificate carries the original R and the lower of S and N - S |
| `Certificates.TwinsAgree` | fabric/msp/cert.go:81-121 | a certificate and its twin with the opposite S become the same bytes |
| `MspState.SanitizedParsed` | fabric/msp/mspimpl.go:971-1005 | a sanitised certificate is again a parsed one, with the same body |
| `MspState.SanitizedLow` | fabric/msp/mspimpl.go:971-1005 | a certificate that is let through keeps its body and has its low form for the key of its issuer, or for its own key if it is a root |
| `MspState.SanitizedCertIff` | fabric/msp/mspimpl.go:971-1005 | let through are certificates that are not ECDSA-signed and those whose signer is found and sanitising succeeds with |
| `MspState.AlreadyLowIff` | fabric/msp/mspimpl.go:971-1005 | a certificate is left alone exactly when its S is at most half its signer's order |
| `MspState.DeserializeParsed` | fabric/msp/mspimpl.go:406-463 | a deserialized identity carries a parsed certificate |
| `MspState.DeserializedLow` | fabric/msp/mspimpl.go:424-463 | a deserialized identity is the certificate of the message in its low form |
| `MspState.DeserializesIff` | fabric/msp/mspimpl.go:424-463 | deserializing succeeds exactly with a known hash, a certificate that parses, an importable key and sanitising that lets it through |
| `MspState.LoadsIff` | fabric/msp/mspimpl.go:110-141 | loading from the configuration asks for the same except the key |
| `MspState.NotRevokedOrderIrrelevant` | fabric/msp/mspimpl.go:1064-1113 | the revocation verdict does not depend on the order of the CRLs |
| `MspState.RevokedIff` | fabric/msp/mspimpl.go:1064-1113 | refused exactly when the issuer has no key identifier, a CRL names no authority, or a CRL of the issuer's key that the issuer signed lists the serial |
| `MspState.SatisfiesImpliesValid` | fabric/msp/mspimpl.go:466-555 | with validated admins, satisfying a member, admin, identity or OU principal implies validity |
| `MspState.AdminsAreMembersIff` | fabric/msp/mspimpl.go:336-341 | every admin is a member if and only if the stored admins validate |
| `MspState.AdminIff` | fabric/msp/mspimpl.go:491-504 | the admins are exactly the certificates held, under the MSP's own name |
| `MspState.UnitOfIff` | fabric/msp/mspimpl.go:521-551 | a valid identity satisfies an OU principal exactly when the MSP is its own, the unit is one of its certificate's and the certifiers are the hash of the path above it |
| `MspState.OwnIdentityIff` | fabric/msp/mspimpl.go:508-520 | an identity satisfies the principal made of its own serialization exactly when it is valid |
| `MspState.ValidIssuedByLeaf` | fabric/msp/mspimpl.go:611-632 | with an exact tree, a valid identity is no CA and its issuer has no configured intermediate beneath it |
| `MspState.ValidIff` | fabric/msp/mspimpl.go:1007-1024 | validity in full: no CA, one path with an issuer, no configured intermediate beneath that issuer, not revoked, and a recognised unit if any are configured |
| `MspState.RawBytesConcat` | fabric/msp/mspimpl.go:647-663 | the bytes hashed for a path are its certificates one after another |
| `MspUnits.RawBytesInjective` | fabric/msp/mspimpl.go:647-663 | concatenated certificates of a chain can be taken apart in one way only |
| `MspUnits.PairAdmits` | fabric/msp/mspimpl.go:1115-1143 | an identity that belongs to a configured (CA, unit) pair passes the OU check |
| `MspUnits.PairAdmitsOnly` | fabric/msp/mspimpl.go:636-663 | whoever a recorded identifier admits carries the unit of a configured pair and was issued by its CA |
| `MspUnits.UnitCheckIff` | fabric/msp/mspimpl.go:838-916 | the OU check passes exactly when no pair is configured or the identity belongs to one |
| `MspUnits.UnitsConfiguredIff` | fabric/msp/mspimpl.go:1115-1143 | identifiers are recorded exactly when some pair is configured, which is what turns the check on |
| `MspUnits.EntryOfRoot` | fabric/msp/mspimpl.go:838-916 | a pair that names a configured root is recorded with the hash of the root alone |
| `MspUnits.EntryOfIntermediateIff` | fabric/msp/mspimpl.go:838-916 | a pair that names a configured intermediate has an entry exactly when no intermediate lies beneath it, and then the hash of its whole path |
| `MspSetup.BccspMsp.ValidateCertAgainstChain` | fabric/msp/mspimpl.go:1064-1113 | accepts exactly when the issuer has a key identifier, every CRL names an authority, and no CRL of that authority signed by the issuer lists the serial (sections 4.2.1.2, 5.2.1 and 6.3 of RFC 5280) |
| `MspSetup.BccspMsp.CertificationChainIdentifier` | fabric/msp/mspimpl.go:647-663 | writing the certificates one by one hashes their concatenation |
| `MspSetup.BccspMsp.GetOrganizationalUnits` | fabric/msp/identities.go:83-104 | one identifier per unit of the certificate, all with the hash of the issuing chain; none when chain or hash is missing |
| `MspSetup.BccspMsp.ValidateIdentityOUs` | fabric/msp/mspimpl.go:1115-1143 | the nested search succeeds exactly when no identifiers are recorded or one of the identity's is |
| `MspSetup.BccspMsp.Validate` | fabric/msp/mspimpl.go:1007-1024 | accepts exactly the identities with a proper chain, not revoked, and with an admitted unit |
| `MspSetup.BccspMsp.SatisfiesPrincipal` | fabric/msp/mspimpl.go:466-555 | decides every kind of principal, with its loops over admins and units, exactly as specified |
| `MspSetup.BccspMsp.LoadIdentities` | fabric/msp/mspimpl.go:716-735 | loads one sanitised certificate per PEM block in order, and fails exactly when some block does not load |
| `MspSetup.BccspMsp.SetupCrypto` | fabric/msp/mspimpl.go:665-685 | the hash family is the configured one, SHA256 when absent or empty |
| `MspSetup.BccspMsp.SetupCAs` | fabric/msp/mspimpl.go:687-758 | on nil the CAs are those of the configuration sanitised against their raw pools and the pools are rebuilt from them; an error means no state fits the configuration |
| `MspSetup.BccspMsp.SetupAdmins` | fabric/msp/mspimpl.go:760-773 | on nil the admins are loaded one for one; an error means some admin does not load |
| `MspSetup.BccspMsp.SetupCRLs` | fabric/msp/mspimpl.go:775-793 | on nil the CRLs are parsed one for one; an error means some CRL does not parse |
| `MspSetup.BccspMsp.ValidateCAIdentity` | fabric/msp/mspimpl.go:1026-1058 | for a well-formed CA and the chain obtained for it, accepts exactly when the chain is unique and the CA is a root or not revoked |
| `MspSetup.BccspMsp.ValidateTLSCAs` | fabric/msp/mspimpl.go:948-962 | returns nil exactly when every TLS CA is well formed and valid at the time the clock is read for it |
| `MspSetup.BccspMsp.FinalizeSetupCAs` | fabric/msp/mspimpl.go:795-823 | returns nil exactly when all CAs are valid, and then the internal-node map marks exactly the certificates above some configured intermediate |
| `MspSetup.BccspMsp.SetupSigningIdentity` | fabric/msp/mspimpl.go:825-836 | returns nil exactly when no signer is configured or its certificate loads, its key is found or imported, and it can sign; the signer is then the certificate sanitised twice, or the previous one when none is configured |
| `MspSetup.BccspMsp.OuPathIdentifier` | fabric/msp/mspimpl.go:842-894 | the identifier or error of a pair, root and intermediate CAs apart |
| `MspSetup.BccspMsp.Record` | fabric/msp/mspimpl.go:896-912 | adds an identifier to its unit unless it is there |
| `MspSetup.BccspMsp.SetupOUs` | fabric/msp/mspimpl.go:838-916 | on nil the recorded identifiers are exactly those of the configured pairs, without duplicates; an error is that of some pair |
| `MspSetup.BccspMsp.SetupTLSCAs` | fabric/msp/mspimpl.go:918-966 | returns nil exactly when the TLS CAs are valid for pools of their own at the current time, and touches only the TLS fields |
| `MspSetup.BccspMsp.ValidateAdmins` | fabric/msp/mspimpl.go:333-341 | returns nil exactly when every admin validates; otherwise names an admin that does not |
| `MspSetup.BccspMsp.Setup` | fabric/msp/mspimpl.go:277-344 | a nil configuration, or one that does not unmarshal, changes nothing and is refused; otherwise Setup leaves a ready state on nil, and on an error no ready state for the configuration exists at the times the clock was read |
| `MspSetup.FromConfigUnique` | fabric/msp/mspimpl.go:665-793 | CAs, pools, admins and CRLs are determined by the configuration |
| `MspSetup.VerdictsAgree` | fabric/msp/mspimpl.go:277-344 | any two states the same configuration leaves accept the same identities |
| `MspSetup.ClockOnlyForTls` | fabric/msp/mspimpl.go:1043-1058 | a remark on readiness: without TLS CAs it does not depend on the current time |
| `MspSetup.SatisfiedAfterSetup` | fabric/msp/mspimpl.go:277-555 | after a Setup that returned nil, an identity satisfying any principal validates, is a member, is no CA, was issued by a CA with no intermediate beneath it and is not revoked by it |
| `MspSetup.PoolsParsedAfterSetup` | fabric/msp/mspimpl.go:687-758 | the pools in force hold parsed certificates and at least one root |
| `MspSetup.AdminsLowAfterSetup` | fabric/msp/mspimpl.go:277-344 | after Setup the i-th admin is the i-th certificate configured, in its low form for the CAs in force |
| `MspSetup.CasLowAfterSetup` | fabric/msp/mspimpl.go:687-758 | after Setup the CAs are those configured, one for one, in their low form for the CAs as configured |
| `MspSetup.CasInForce` | fabric/msp/mspimpl.go:795-823 | after Setup every CA is a CA certificate with a key identifier and one path, and is not listed in a CRL its issuer signed |
| `MspSetup.TlsCasInForce` | fabric/msp/mspimpl.go:918-966 | TLS roots are CA certificates with a key identifier and one path in the TLS pools at the time they are checked |
| `MspSetup.SignerUsableIff` | fabric/msp/mspimpl.go:143-192 | a signer is usable exactly when its certificate loads and is sanitised again, its key imports, and the key store or else the configuration has a key that signs |
| `MspSetup.RootsAloneReady` | fabric/msp/mspimpl.go:277-344 | a configuration of plain self-issued roots has a ready state |
| `MspManager.Manager.Setup` | fabric/msp/mspmgrimpl.go:46-79 | succeeds exactly on a non-empty list whose MSPs all have names, routing every name to the last MSP bearing it; a second call changes nothing |
| `MspManager.Manager.DeserializeIdentity` | fabric/msp/mspmgrimpl.go:87-107 | unreadable bytes and unknown names fail; an MSP still bearing the name gives the answer of its own checked path although the check is skipped |
| `MspManager.RoutedToLast` | fabric/msp/mspmgrimpl.go:46-107 | after Setup a name is known exactly when some listed MSP bears it, and leads to the last one that does |
| `MspManager.SetupAndDeserialize` | fabric/msp/mspmgrimpl.go:46-107 | setting up a fresh manager and deserializing through it gives the answer of the last listed MSP of that name, its own check of the identifier included; names nobody bears are refused |
| `MspManager.SkippedCheckIff` | fabric/msp/mspimpl.go:406-421 | skipping the identifier comparison gives the checked result if and only if the identifier is the MSP's name |
| `PolicyMembership.SignersOfOneOrg` | fabric/msp/mspimpl.go:466-500 | an identity satisfies member and admin principals of its own MSP only, so every signature speaks for one organisation |
| `PolicyMembership.RoleIff` | fabric/msp/mspimpl.go:466-500 | signed data speak for a role exactly when they name the organisation, its MSP deserializes them, the signature verifies, and the identity is one of its admins or, as a member, valid |
| `PolicyMembership.AdminSignsAsMember` | fabric/msp/mspimpl.go:466-555 | when the MSPs have been set up, signed data that satisfy an admin principal satisfy the member principal of that organisation |
| `PolicyMembership.SignersAdminsAreMembers` | fabric/msp/mspimpl.go:466-555 | hence in the lists MSPs give rise to every admin is also a member |
| `PolicyMembership.TextExactForMembers` | fabric/common/cauthdsl/policyparser.go:206-279 | from text to MSPs: if no AND names an organisation in two arguments, the policy made of the text accepts signed data exactly when the expression is true of the roles of their identities, and more signed data in any order keep it accepted |
| `PolicyMembership.AnyAdminIsAnyMember` | fabric/common/cauthdsl/cauthdsl_builder.go:117-152 | when the MSPs have been set up, signed data the any-admin policy of some organisations accepts are accepted by their any-member policy |
| `AesCbc.Unpad` | fabric/bccsp/sw/aes.go:56-72 | the checking loop decides the padding as specified, index panics included |
| `AesCbc.UnpadUndoesPad` | fabric/bccsp/sw/aes.go:50-72 | unpadding undoes padding for every message |
| `AesCbc.UnpadIff` | fabric/bccsp/sw/aes.go:56-72 | on a non-empty whole number of blocks unpadding accepts exactly the images of padding |
| `AesCbc.UnpadNeverPanics` | fabric/bccsp/sw/aes.go:56-72 | on such input no index is out of range |
| `AesCbc.CbcRoundTrip` | fabric/bccsp/sw/aes.go:74-117 | chained decryption undoes chained encryption for every permutation and initialisation vector |
| `AesCbc.CbcRoundTripBack` | fabric/bccsp/sw/aes.go:74-117 | encryption undoes decryption, when the cipher is onto |
| `AesCbc.CbcChains` | fabric/bccsp/sw/aes.go:86-93 | each cipher block is the encryption of its plain block combined with the cipher block before it, the vector coming first (section 6.2 of NIST SP 800-38A) |
| `AesCbc.CryptBlocks` | fabric/bccsp/sw/aes.go:86-93 | filling the buffer block by block behind the vector gives the chained cipher text |
| `AesCbc.AesCbcEncrypt` | fabric/bccsp/sw/aes.go:74-94 | refuses partial blocks, then bad keys; otherwise returns the vector and the cipher text |
| `AesCbc.DecryptBlocksInPlace` | fabric/bccsp/sw/aes.go:110-116 | decrypting from the last block to the first inside one buffer leaves the first block and the plain text |
| `AesCbc.AesCbcDecrypt` | fabric/bccsp/sw/aes.go:96-117 | returns the plain text, overwriting the caller's buffer with it after the first block; an error leaves the buffer alone |
| `AesCbc.Pkcs7Padding` | fabric/bccsp/sw/aes.go:50-54 | returns the padded message, writing the padding into the spare capacity of the caller's slice when it fits |
| `AesCbc.AesCbcPkcs7Encrypt` | fabric/bccsp/sw/aes.go:120-126 | padding then encryption; the caller's message is left alone, and padding is written behind it exactly when the slice has room for it |
| `AesCbc.AesCbcPkcs7Decrypt` | fabric/bccsp/sw/aes.go:129-136 | decryption in the caller's buffer then unpadding; the first block of the buffer never changes |
| `AesCbc.MessageRoundTrip` | fabric/bccsp/sw/aes.go:120-136 | decryption returns every plain text encrypted under any key of legal size and any vector |
| `AesCbc.MessageLayout` | fabric/bccsp/sw/aes.go:120-126 | keys of 16, 24 or 32 bytes only; the message is the vector followed by the chained blocks of the padded text |
| `AesCbc.DecryptIff` | fabric/bccsp/sw/aes.go:120-136 | decryption returns a plain text exactly when encrypting it under the same key with the first block for vector gives the cipher text |
| `AesCbc.DecryptPanicsIff` | fabric/bccsp/sw/aes.go:129-136 | under a legal key, decryption indexes out of range exactly on input of one block |
| `SessionCache.ProgramsBalanced` | fabric/bccsp/pkcs11/pkcs11.go:374-443 | every sequence of calls returns each session it takes, the nested checkout of a private-key import included |
| `SessionCache.InitialInv` | fabric/bccsp/pkcs11/impl.go:70-73 | the seeded cache starts in the invariant |
| `SessionCache.NextKeepsInv` | fabric/bccsp/pkcs11/pkcs11.go:93-127 | every step of every caller keeps the accounting of sessions |
| `SessionCache.RunKeepsInv` | fabric/bccsp/pkcs11/pkcs11.go:93-127 | so does every interleaving |
| `SessionCache.SessionsOwnedOnce` | fabric/bccsp/pkcs11/pkcs11.go:93-127 | in every interleaving each open session is in the cache, with one caller or failed to close, never two of these and never twice; no closed session is owned; the cache stays within capacity |
| `SessionCache.FinishedBalances` | fabric/bccsp/pkcs11/pkcs11.go:119-127 | when all calls have ended nobody holds a session and the open ones are the cached ones plus those that failed to close |
| `SessionCache.NeverBlocks` | fabric/bccsp/pkcs11/pkcs11.go:93-127 | a caller with work left always has a step of its own |
| `SessionCache.StepSpendsBudget` | fabric/bccsp/pkcs11/pkcs11.go:93-127 | every step lowers a bound on the steps to come |
| `SessionCache.RunsComplete` | fabric/bccsp/pkcs11/pkcs11.go:93-127 | runs are bounded, and one that cannot go on has finished every call |
| `SessionCache.CachedIsReused` | fabric/bccsp/pkcs11/pkcs11.go:93-117 | while the cache has a session, the oldest is handed out and none is opened |
| `SessionCache.ReturnedIsKept` | fabric/bccsp/pkcs11/pkcs11.go:119-127 | a returned session is kept while fewer than ten are cached and closed otherwise |
| `SessionCache.OpenedWhenEmpty` | fabric/bccsp/pkcs11/pkcs11.go:93-117 | a session is opened only when the cache is empty, and after ten failures the call gives up and returns what it holds |
| `SessionCache.ClosedIsGone` | fabric/bccsp/pkcs11/pkcs11.go:119-127 | a closed session is gone, and one that fails to close stays open and uncached |
| `SessionCache.ImportHoldsTwo` | fabric/bccsp/pkcs11/pkcs11.go:374-443 | importing a private key holds two sessions at once |
| `FanOut.NextKeepsInv` | fabric/bddtests/context_endorser.go:258-303 | every step of worker, collector, timer and caller keeps the map and the counts in agreement |
| `FanOut.NilReturnIsComplete` | fabric/bddtests/context_endorser.go:258-303 | in every interleaving a nil return comes with an entry for every endorser and none else, each sent by a worker for it, and nobody touches the map afterwards |
| `FanOut.TimeoutIsFinal` | fabric/bddtests/context_endorser.go:258-303 | a timeout that fires first is never turned into success by any continuation |
| `FanOut.NotStuck` | fabric/bddtests/context_endorser.go:258-303 | every state short of the final ones has a step, so every send is matched by a receive |
| `FanOut.StepsDecrease` | fabric/bddtests/context_endorser.go:258-303 | every step lowers the number of steps left |
| `FanOut.RunsComplete` | fabric/bddtests/context_endorser.go:258-303 | no run is longer than two steps per endorser plus three, and a run cannot go on exactly when all replies are received, the collector is done and the caller has returned |
| `FanOut.ReceiveStores` | fabric/bddtests/context_endorser.go:287-296 | a received reply is stored under its endorser, over any earlier one, and counted |
| `FanOut.ResponsesAreAnswers` | fabric/bddtests/context_endorser.go:258-303 | in every run each entry of the map is what the call of some worker for that endorser returned |
| `FileKeyStore.FileNameInjective` | fabric/bccsp/sw/fileks.go:429-431 | a file name determines the key identifier and the kind of key |
| `FileKeyStore.HexAt` | fabric/bccsp/sw/fileks.go:429-431 | two lower-case hexadecimal digits per byte, the high half first |
| `FileKeyStore.SuffixOrder` | fabric/bccsp/sw/fileks.go:260-277 | in a sorted listing symmetric keys come before public before private ones |
| `FileKeyStore.KeyStore.StoreKey` | fabric/bccsp/sw/fileks.go:169-223 | refuses on a read-only store, a nil or an unsupported key and leaves the directory alone; otherwise writes that key's file |
| `FileKeyStore.KeyStore.GetSuffix` | fabric/bccsp/sw/fileks.go:260-277 | returns the kind of the first listed file with the alias as prefix |
| `FileKeyStore.KeyStore.SearchKeystoreForSKI` | fabric/bccsp/sw/fileks.go:225-258 | the scan of the directory finds the first readable key with the identifier |
| `FileKeyStore.KeyStore.GetKey` | fabric/bccsp/sw/fileks.go:115-165 | lookup by kind with its errors, and the scan when no file has the alias |
| `FileKeyStore.StoredKeepsInv` | fabric/bccsp/sw/fileks.go:169-223 | storing a key keeps the directory sorted and every file that of one of the keys stored, under its own name |
| `FileKeyStore.ReachableInv` | fabric/bccsp/sw/fileks.go:169-223 | so do all sequences of stores from an empty directory |
| `FileKeyStore.NeverLost` | fabric/bccsp/sw/fileks.go:169-223 | in every reachable directory each accepted key has its file, or another key of the same identifier and kind has it |
| `FileKeyStore.LookupReturnsThatSki` | fabric/bccsp/sw/fileks.go:115-165 | in every reachable directory, lookup returns only keys with the identifier asked for |
| `FileKeyStore.SearchIff` | fabric/bccsp/sw/fileks.go:225-258 | in any directory the scan finds a key exactly when some file decodes to a private key of the identifier, and then the first one |
| `FileKeyStore.FirstKindPreferred` | fabric/bccsp/sw/fileks.go:260-277 | the first listed file of an identifier is its symmetric file, else its public, else its private one |
| `FileKeyStore.StoredKeyFound` | fabric/bccsp/sw/fileks.go:115-277 | after a store, lookup finds a key of the same identifier, the stored one itself exactly when its file is the preferred one; unless two stored keys share an identifier but not their public part, the key found has the stored one's public part, a public or symmetric key comes back itself, and a private one comes back as public exactly when its public file exists |
| `FileKeyStore.PublicFileWins` | fabric/bccsp/sw/fileks.go:115-277 | a private key stored after its own public key is found as the public key |
| `FileKeyStore.LawfulStore` | fabric/bccsp/sw/fileks.go:169-223 | the hypotheses on encoding can be met, by a private and a public key that share an identifier |
| `FileKeyStore.LookupSucceedsIff` | fabric/bccsp/sw/fileks.go:115-277 | in every reachable directory, lookup succeeds exactly for the identifiers of the keys that were accepted |

## Left out

- govaluate's text parsing: expressions are call trees whose arguments are evaluated from left to right and inner calls first.
- PolicyParser.FromString: a quoted text that is no principal is pasted unquoted into the next pass and parsed there, so it may spell a gate or several arguments; here it always counts as an unrecognised token.
- PolicyMeaning.FromStringPreservesMeaning: for the same reason, success exactly on well-formed expressions leaves out quoted texts that spell further code.
- Integer width in policies: the int32 gate counter and principal index would wrap only beyond two thousand million rules.
- Protobuf, PEM, ASN.1, X.509 chain building, AES, SHA and elliptic curves: parameters with the laws above.
- PolicyExactness.ExactOnAllSignaturesIff: PolicyPruning.ExactIff drops reachability and PolicyBoolean.ReadsAsBooleanIff drops distinctness for the Boolean reading; for completeness, order independence and monotonicity of trees with repeated principals the conditions are sufficient only, since such a tree can be complete with larger thresholds.
- PolicyBoolean.ReadsAsBooleanIff: gates with a threshold of zero or less are left to the sufficient half, because they take positions although they need none.
- PolicyOrganisations.BooleanPerOrgIff: with repeated principals the condition is sufficient only (`PolicyOrganisations.SeparatedIsExact`), since one child may absorb another.
- PolicyMeaning.MeaningForMembersIff: with several organisations in both roles the "only if" fails, as `PolicyMeaning.RolesCanRescue` shows; an exact condition for that case is not given.
- PolicyAppending.AppendingKeepsAcceptance: sufficient, not necessary; whether appending can hurt a larger gate depends on how many earlier positions a newly met child can take and on how many children the gate can spare.
- MspState.NotRevokedOrderIrrelevant: the order of entries inside a CRL does not enter, since the specification asks only whether a serial is listed.
- MspSetup.BccspMsp.Setup: the fields a failing Setup leaves half filled are not specified, and a nil dereference in the signing phase counts as an error.
- MspSetup.BccspMsp.ValidateCAIdentity: an empty chain from chain building, on which the code would index out of range, counts as a refusal.
- Extension lookup for subject and authority key identifiers: certificates and CRLs carry them as optional fields.
- KeyDeriv.SwDerivePublic: option checks, nil keys and symmetric derivation only add easy branches.
- AesCbc.AesCbcPkcs7Encrypt: the random vector is an argument.
- LowS.SignLowS: the raw signature of the library or token is an argument.
- SessionCache.NextKeepsInv: a token that reuses a handle still open is excluded; login state and token errors other than failing to open or close are not modelled.
- FanOut.NextKeepsInv: user and proposal lookup before the fan-out is left out, and connection errors are replies without a response.
- FileKeyStore.KeyStore.GetKey: sub-directories, file-system errors, permissions and passwords changed between calls are left out.
- Identity identifiers (`IdentityIdentifier.Id`), signature verification by identities, and `nextIDCtr`.
- Factories, option structs, configuration, command lines, ledgers, orderers and generated code.
