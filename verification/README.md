# Verified model of a threshold-ECDSA library

A Dafny model of the arithmetic core of the library and of the two signing protocols built on it: Paillier
encryption, Shamir/Feldman sharing with refresh, the sigma proofs over Paillier ciphertexts, the Blum-modulus proof,
Lindell two-party signing, and CGGMP21 key generation, presigning and online signing. `dafny verify dfyconfig.toml`
checks everything.

## How the code is represented

- The curve order `q` and the Paillier primes are parameters assumed prime; Fermat's little theorem, Bezout, Chinese
  remaindering and Euler's criterion are proved from `%` upwards (`Arithmetic`, `Euclid`, `Primes`).
- A curve point is the discrete logarithm of an element of a group of prime order (`Group.Point`). The x-coordinate is
  an arbitrary function of the point, so every theorem holds whatever the curve equation is, including what the
  library reports as the x-coordinate of the identity.
- SHA-256 challenges and commitments are arbitrary functions of what the code hashes, with challenge values in
  [0, 2^256). No theorem relies on collision resistance.
- Random draws are arguments, limited to the ranges the code draws from. Big integers are unbounded; `%` on a possibly
  negative big integer truncates (`Arithmetic.Rem`), `modpow` and `mod_floor` do not.
- The recovery id is an arbitrary function of the nonce point (`Group.Curve.recOf`), for each protocol its own.
- A round's received messages are a list of everyone else's messages in index order, which is how `into_iter_indexed`
  yields them. `Peer(i, k)` is the sender of entry k at party i, and `Without(all, i)` is what i receives.
- Loops are methods proved against a specification function (`RunVss` against `VssSpec`, `RunKeygen` against
  `KeygenSpec`, `RunPresign` against `PresignSpec`, `RunOnlineSign` against `SignSpec`, `RunSign` against `SignSpec`);
  the protocol theorems are about those functions, so they hold for what the methods return.

- Every check has a lemma that says, for arbitrary messages, what its acceptance means and that it rejects everything
  else: `LindellOutcome`, `ProofMeaning`, `CggmpKeygen.CheckMessageIs`, `CggmpPresign.PresignResultIff`,
  `CggmpSign.OnlineSignResultIff`, `LindellDkg.VssAcceptsIff` and `VssErrorIs`, `Blum.VerifySpecMeans`.

## Main results

1. `LindellSign.LindellEndToEnd`, `DkgThenSign`, `RefreshThenSign`: with a Paillier modulus above (q-1)^2 every honest
   run returns (r, k^-1 (z + r x)) at every party, before and after any number of refreshes.
   `LindellModulus.AlwaysRightIff` is the exact condition on the key and the curve order, `P1SignatureCorrectIff` the
   one on a single run.
   `LindellOutcome.SignResultIff` gives the result on arbitrary messages.
2. `CggmpSign.CggmpEndToEnd`: key generation, presigning and online signing composed, for every n, t and signer set.
   `AnySignersResult` gives the result for too few signers and altered shares.
3. `Paillier.DecryptEncrypt` and `HomomorphicEvaluation`; `PaillierRandomness.RoundTripIffUnit` is the exact condition
   for the randomness the code draws.
4. `Core.Reconstruction` and `LindellDkg.RefreshedSharesReconstruct`: Lagrange reconstruction, and refresh over whole
   runs.
   `ShareThreshold.AcceptedSharesOpenIff` is the exact number of parties that reconstruct a key from lists of unchecked
   length, and `LindellDkg.RefreshKeepsKeyIff` says exactly when a refresh with arbitrary peers keeps the key.
5. `DkgMachine.Agreement`, `AcceptingPartiesReconstruct`, `MaximalRunsReturn`: key generation as a step machine with
   arbitrary dishonest parties and arbitrary delivery order.
6. `CggmpKeygen.HonestKeygenResult`: the outcome of honest key generation at every party, stopped parties included.
   `Blum.BlumComplete` and the `...AcceptsIff` lemmas of `PaillierZk`: exactly when each honest proof is accepted.
7. `Instances`: concrete inputs that meet all hypotheses of the end-to-end theorems (`LindellHypotheses`,
   `CggmpHypotheses`), and concrete inputs on which a promise fails.
8. `Der.DerOfFixedWidth`: the DER form is read back by a strict reader, and from no other bytes.

## Where the code and its documentation differ

- The range proof is documented as showing |m| < 2^ell (src/paillier_zk.rs:22-23). The bound the verifier tests
  (src/paillier_zk.rs:95) leaves room for every m up to 2^(ell + bits(N)), hence for every residue modulo N
  (`RangeComplete`, `RangeAcceptsEveryResidue`); `RangeAlwaysAcceptedIff` is the exact bound and
  `LargeMessagePassesRange` an instance.
- `encrypt` and both protocols draw the randomness from [1, N) without a coprimality test (src/paillier.rs:34).
  Decryption then inverts encryption for every message exactly when the draw is coprime to N (`RoundTripIffUnit`); for
  any other draw already the message 0 is lost (`OnePrimeBreaksZero`, `SharedFactorLosesZero`).
- The `mu == 0` retry of key generation (src/paillier.rs:134-136) fires exactly when one prime divides the other minus
  one (`RetryIff`), which primes of the same bit length never do (`EqualBitLengthNeverRetries`).
- `prove_mul` is documented as bounding the multiplier so that decryption does not overflow
  (src/paillier_zk.rs:284-285). It does not: every honest run with a key signs right if and only if N > (q-1)^2 or q
  divides N (`AlwaysRightIff`, `SmallModulusBreaksSignature`).
- `prove_blum` records no index for some challenge sequences (`BlumComplete`). An honest key is then rejected by every
  peer, all of which stop, and its owner waits for them without a result (`HonestKeygenResult`, `HonestBlumRejection`,
  `HonestPartyWaits`).
- `prove_blum` and `verify_blum` are documented as proving that N is a Blum integer (src/paillier_zk.rs:143, 189). The
  verifier accepts one entry at any index, so any N = 1 mod 4 passes if some challenge or its negation is a square
  modulo N, and no other N does (`PassableIff`, `PrimeModulusPasses`).
- `run_refresh` is documented as leaving the public key unchanged (src/lindell/dkg.rs:121). It returns the old key
  whatever the peers reveal; the shares still open it exactly when the revealed constant terms sum to the identity, a
  sum that `run_vss` returns and `run_refresh` discards (`RefreshKeepsKeyIff`, `RefreshLosesKey`).
- `run_vss` never compares the length of a revealed list with the threshold. Accepting signers reconstruct the key in
  every run if and only if they are at least as many as the longest list that may be revealed
  (`AcceptedSharesOpenIff`); in one run, if and only if the committed polynomial divided by all their points vanishes
  at 0 (`ConsistentReconstructIff`). The threshold alone is not enough (`LongListBreaksThreshold`).
- Presigning sends a range proof that its receiver never checks (src/cggmp21/presign.rs:216-226), so
  `CggmpPresign.PresignSpec` does not read it.
- `verify_signature` maps s = 0 to the inverse 0 (src/lindell/sign.rs:22), so any signature with s = 0 modulo q is
  accepted exactly when r equals the x-coordinate reported for the identity (`ZeroSAcceptedIff`). It does not test the
  ranges of SEC 1 v2.0, section 4.1.4: only the residues of r and s matter (`AcceptedIff`, `RangesNotTested`).

## Model

| member | source | states |
|---|---|---|
| Euclid.GcdDivides | src/paillier.rs:170-175 | `biguint_gcd` returns a common divisor |
| Euclid.GcdGreatest | src/paillier.rs:170-175 | every common divisor divides what `biguint_gcd` returns |
| Euclid.LcmIsLeast | src/paillier.rs:165-168 | `lcm` is a positive common multiple that divides every common multiple |
| Euclid.EuclidStep | src/paillier.rs:81-86 | one loop iteration keeps the cofactor congruences, the gcd, the alternating signs and r·abs(new_t) + new_r·abs(t) = n |
| Euclid.EuclidLoop | src/paillier.rs:76-87 | the loop terminates with the gcd, a cofactor of it modulo n, and that cofactor strictly between -n and n |
| Euclid.ModInv | src/paillier.rs:75-93 | returns an inverse in [0, n) when gcd(a, n) = 1, and for n > 1 returns 0 exactly when there is none |
| Euclid.InverseUnique | src/paillier.rs:75-93 | any t in [0, n) with a·t = 1 is the value `modinv` returns, and its existence forces gcd(a, n) = 1 |
| Euclid.ModInvInternal | src/paillier_zk.rs:230-244 | returns a residue whose product with a is the gcd, hence the inverse for coprime arguments |
| Paillier.KeyFromL | src/paillier.rs:123-131 | L(g^lambda mod n^2) is lambda mod n |
| Paillier.RetryIff | src/paillier.rs:133-136 | mu is 0 exactly when p divides q-1 or q divides p-1 |
| Paillier.EqualBitLengthNeverRetries | src/paillier.rs:106-136 | for distinct odd primes of one bit length mu is never 0 |
| Paillier.KeyFromValid | src/paillier.rs:117-148 | a key past the retry test has n = p·q, g = n+1, lambda = lcm(p-1, q-1) and lambda·mu = 1 mod n |
| Paillier.GeneratedKeysAreValid | src/paillier.rs:105-149 | every key the retry loop can return satisfies that invariant, with both primes 3 mod 4 and taken from the draws |
| Paillier.HeadPairReturned | src/paillier.rs:105-148 | two primes 3 mod 4, distinct and neither dividing the other minus one, at the head of the draws give their key at once |
| Paillier.FirstKeyIff | src/paillier.rs:105-149 | the loop returns a key exactly when it reaches such a pair, and then the key of that pair |
| Paillier.LongerStreamSameKey | src/paillier.rs:105-149 | the key the loop returns does not change when more draws follow |
| Paillier.GenerateKeypairExt | src/paillier.rs:101-150 | the loop returns the first acceptable pair of consecutive draws, as a valid key |
| Paillier.FirstOrder | src/paillier.rs:39-46 | (b + k n)^m = b^m + m b^(m-1) k n modulo n^2 |
| Paillier.UnitOrder | src/paillier.rs:39-69 | rho^(n lambda) = 1 modulo n^2 for every rho coprime to n |
| Paillier.EncryptEncodes | src/paillier.rs:39-46 | raising an encryption of m to lambda gives 1 + m lambda n modulo n^2 |
| Paillier.DecryptEncoding | src/paillier.rs:60-73 | `decrypt` with its exact division recovers m mod n from every such ciphertext |
| Paillier.DecryptEncrypt | src/paillier.rs:39-69 | decrypt(encrypt_with_rho(m, rho)) = m mod n for every valid key, m >= 0 and rho coprime to n |
| PaillierRandomness.MultipleDecryptsToZero | src/paillier.rs:60-73 | a ciphertext that n divides decrypts to 0, because the division of -1 by n truncates |
| Paillier.TruncDivMeans | src/paillier.rs:71-73 | the quotient times the divisor plus the truncating remainder is the dividend |
| Arithmetic.RemMeans | src/paillier.rs:48-51 | the truncating remainder is congruent, below the modulus and never of the opposite sign |
| Paillier.MulEncodings | src/paillier.rs:48-51 | multiplying ciphertexts adds the encoded plaintexts |
| Paillier.PowEncodings | src/paillier.rs:53-56 | raising a ciphertext to k multiplies the encoded plaintext by k |
| Paillier.HomomorphicEvaluation | src/paillier.rs:48-69 | any tree of `add` and `scalar_mul` over encryptions decrypts to its integer value mod n |
| PaillierRandomness.OnePrimeBreaksZero | src/paillier.rs:31-46 | if exactly one prime divides rho, the encryption of 0 does not decrypt to 0 |
| PaillierRandomness.RoundTripIffUnit | src/paillier.rs:31-69 | for rho in [1, n) all messages round-trip if and only if rho is coprime to n |
| Instances.SharedFactorLosesZero | src/paillier.rs:31-46 | a concrete key and draw on which decryption does not invert encryption |
| Core.EvaluateAt | src/core.rs:105-110 | the power loop computes the polynomial at x modulo q |
| Core.EvaluatePolynomial | src/core.rs:89-115 | t coefficients starting with the intercept; returns G times each of them and party j's share f(j+1) |
| Core.EvaluateInExponent | src/lindell/dkg.rs:81-87 | the receiver's loop computes the committed polynomial at i+1 in the exponent |
| Core.CommitmentsDetermineShare | src/lindell/dkg.rs:80-90 | an honest sender's commitments evaluate to G times the share |
| Core.ComputeLagrangeCoeff | src/core.rs:25-38 | the loop returns the quotient of the two products; the `expect` cannot fire for indices below q |
| Core.CoefficientWithout | src/core.rs:25-38 | dropping signer m multiplies the coefficient of i by -x_m / (x_i - x_m) |
| Core.CoefficientsSumToOne | src/core.rs:25-38 | the coefficients of any non-empty set of distinct signers sum to 1 |
| Core.Reconstruction | src/core.rs:25-38 | distinct signers, at least as many as the polynomial has coefficients, recover f(0) |
| LindellDkg.FindOpening | src/lindell/dkg.rs:74-78 | the search returns the first reveal stored under that sender, and fails only when there is none |
| LindellDkg.CheckOpenings | src/lindell/dkg.rs:43-55 | the commitment loop reports the first mismatch or empty list, otherwise adds all constant terms and stores the lists by sender |
| LindellDkg.CheckShares | src/lindell/dkg.rs:72-93 | the share loop reports the first share that fails its check, otherwise returns the sum of all shares |
| LindellDkg.RunVss | src/lindell/dkg.rs:10-96 | what a party broadcasts, which share it sends to whom, and its result, for all received messages |
| LindellDkg.VssAcceptsIff | src/lindell/dkg.rs:43-95 | `run_vss` accepts exactly when every commitment opens, no list is empty and every share checks |
| LindellDkg.VssErrorIs | src/lindell/dkg.rs:43-95 | the error reported is that of the first bad opening, and otherwise of the first share that fails its check |
| LindellDkg.AcceptedShareIsConsistent | src/lindell/dkg.rs:43-95 | for arbitrary peers and list lengths, an accepted share times G is the sum of all committed polynomials at i+1, and the key is the sum of their constant terms |
| LindellDkg.ConsistentSharesReconstruct | src/lindell/dkg.rs:43-95 | for arbitrary peers, distinct parties with such shares, at least as many as the longest list, reconstruct the sum of the constant terms |
| ShareThreshold.InterpolationAtZero | src/core.rs:25-38 | what interpolation at 0 returns for polynomials of any length: f(0) minus the product of the negated points times the last quotient at 0 |
| ShareThreshold.ConsistentReconstructIff | src/lindell/dkg.rs:43-95 | for one run with arbitrary peers, parties with consistent shares reconstruct the key exactly when the committed polynomial divided by all their points vanishes at 0 |
| ShareThreshold.SharesOpenIff | src/lindell/dkg.rs:80-95 | distinct signers with consistent shares of lists up to a length always reconstruct the key if and only if they are at least that many |
| ShareThreshold.AcceptedSharesOpenIff | src/lindell/dkg.rs:43-95 | the same for every run in which `run_vss` accepts at all signers |
| LindellDkg.HonestVssResult | src/lindell/dkg.rs:21-96 | an honest run never errs; party i holds the sum of f_j(i+1) and all hold the same key |
| LindellDkg.DkgSharesOnPolynomial | src/lindell/dkg.rs:101-119 | honest key generation leaves shares on one polynomial of degree below the threshold whose constant term is the key |
| LindellDkg.SharesReconstruct | src/core.rs:25-38 | any t or more distinct parties reconstruct the constant term from their shares |
| LindellDkg.RunRefresh | src/lindell/dkg.rs:123-142 | refresh adds the zero-intercept sharing to the old share, keeps the key, and passes errors on |
| LindellDkg.RefreshStep | src/lindell/dkg.rs:123-142 | one honest refresh moves all shares to another polynomial of degree below t with the same constant term |
| LindellDkg.RefreshKeepsSecret | src/lindell/dkg.rs:123-142 | so does any number of honest refreshes, and no party fails |
| LindellDkg.RefreshedSharesReconstruct | src/lindell/dkg.rs:123-142 | after any number of refreshes every set of t or more signers reconstructs the key behind the unchanged public key |
| LindellDkg.OffsetsKeepKeyIff | src/lindell/dkg.rs:123-142 | adding consistent offsets to shares of a key keeps it exactly when the revealed constant terms cancel |
| LindellDkg.RefreshKeepsKeyIff | src/lindell/dkg.rs:121-142 | after a refresh that the signers accepted, arbitrary peers included, the shares `run_refresh` returned to them open the old key exactly when the key `run_vss` returned is the identity |
| ShareThreshold.RefreshKeepsKeyExactly | src/lindell/dkg.rs:121-142 | the same for revealed lists of any length: exactly when interpolating the committed offsets at 0 gives 0 |
| Instances.RefreshLosesKey | src/lindell/dkg.rs:121-142 | a refresh accepted from a peer that reveals the constant term 1, after which the share does not open the unchanged key |
| Instances.LongListBreaksThreshold | src/lindell/dkg.rs:84-92 | with threshold 1, a party accepts a list of two points and its share no longer opens its public key |
| DkgMachine.NextKeepsInv | src/lindell/dkg.rs:21-95 | every broadcast, delivery, send and return keeps the protocol invariant |
| DkgMachine.RunKeepsInv | src/lindell/dkg.rs:21-95 | the invariant holds at the end of every run |
| DkgMachine.Agreement | src/lindell/dkg.rs:21-95 | with reliable broadcast, any delivery order and arbitrary dishonest parties, all accepting honest parties hold the same key and consistent shares |
| DkgMachine.AcceptingPartiesReconstruct | src/lindell/dkg.rs:21-95 | in every run, distinct accepting honest parties, at least as many as the longest broadcast list, reconstruct the secret behind the key they hold |
| DkgMachine.AcceptingPartiesReconstructIff | src/lindell/dkg.rs:21-95 | and with lists of any length, exactly when the broadcast polynomial divided by all their points vanishes at 0 |
| DkgMachine.HonestRuns | src/lindell/dkg.rs:21-95 | when all are honest, any party that returns holds the sum of f_j(i+1) and the common key |
| DkgMachine.Progress | src/lindell/dkg.rs:21-95 | when all parties are honest and one has not returned, some step is possible that repeats no delivery |
| DkgMachine.StepShrinksPending | src/lindell/dkg.rs:21-95 | every step but a repeated delivery makes one more of finitely many events happen |
| DkgMachine.MaximalRunsReturn | src/lindell/dkg.rs:21-95 | when all are honest, runs without repeated deliveries are bounded, and those that cannot go on have every party returned with its share of the common key |
| PaillierZk.GPowIsModPow | src/paillier_zk.rs:18-20 | `g_pow` equals modular exponentiation of g = n+1 for every exponent |
| PaillierZk.SigmaEquation | src/paillier_zk.rs:101-110 | the equation all four Paillier verifiers test holds for honest responses, although the response is reduced modulo n before being raised to n |
| PaillierZk.RangeAcceptsIff | src/paillier_zk.rs:51-111 | an honest range proof is accepted exactly when z is below the tested bound |
| PaillierZk.RangeComplete | src/paillier_zk.rs:51-111 | it is accepted for every m up to 2^(ell + bits(n)) |
| PaillierZk.RangeAlwaysAcceptedIff | src/paillier_zk.rs:51-111 | for every mask and challenge exactly when (2^256 - 1) m <= 2^(ell + 256 + bits(n)) |
| PaillierZk.RangeAcceptsEveryResidue | src/paillier_zk.rs:82-111 | hence for every m below n, whatever ell is |
| Instances.LargeMessagePassesRange | src/paillier_zk.rs:22-23 | for the modulus 77 the message 50 passes a proof that it is below 2 |
| PaillierZk.MulAcceptsIff | src/paillier_zk.rs:287-348 | an honest multiplication proof is accepted exactly when z is below the tested bound |
| PaillierZk.MulComplete | src/paillier_zk.rs:287-348 | it is accepted for every scalar up to 2^(bound_bits + bits(n)) |
| PaillierZk.ConsistencyAcceptsIff | src/paillier_zk.rs:384-453 | a proof made for m passes against R exactly when m·R = G or the challenge is 0 mod q |
| PaillierZk.LogAcceptsIff | src/paillier_zk.rs:532-600 | a proof made for x passes against X exactly when X = x·G or the challenge is 0 mod q |
| PaillierZk.SchnorrAcceptsIff | src/paillier_zk.rs:478-496 | a proof made for x passes against X exactly when X = x·G or the challenge is 0 mod q |
| ProofMeaning.EquationBinds | src/paillier_zk.rs:101-110 | for arbitrary proofs the equation all four Paillier verifiers test forces a + e m = b z modulo n on the plaintexts |
| ProofMeaning.RangeMeans | src/paillier_zk.rs:83-111 | an accepted range proof has z in its bound and a + e m = z modulo n |
| ProofMeaning.MulMeans | src/paillier_zk.rs:319-348 | an accepted multiplication proof has z in its bound and t + e mOut = mIn z modulo n |
| ProofMeaning.LogMeans | src/paillier_zk.rs:568-600 | an accepted log proof has a + e m = z modulo n and z = A + e X modulo q on discrete logarithms |
| ProofMeaning.ConsistencyMeans | src/paillier_zk.rs:420-453 | an accepted consistency proof has a + e m = z modulo n and z R = A + e G |
| ProofMeaning.SchnorrMeans | src/paillier_zk.rs:491-496 | a Schnorr proof is accepted exactly when z = a + e x on discrete logarithms |
| ProofMeaning.LogBinds | src/paillier_zk.rs:568-600 | an accepted log proof forces X = m·G when A = a·G, nothing wraps modulo n and the challenge is not 0 mod q |
| ProofMeaning.PointProofIs | src/paillier_zk.rs:384-418 | an honest log or consistency proof commits to alpha and answers alpha + e m with a unit |
| ProofMeaning.RangeProofIs | src/paillier_zk.rs:51-80 | an honest range proof commits to alpha and answers alpha + e m with a unit |
| ProofMeaning.MulProofIs | src/paillier_zk.rs:287-316 | an honest multiplication proof commits to mIn t and answers t + e scalar with a unit |
| ProofMeaning.LogAgainstOther | src/paillier_zk.rs:532-600 | an honest log proof for x passes against an encryption of x' only if e' x' = e x modulo n |
| ProofMeaning.ConsistencyAgainstOther | src/paillier_zk.rs:384-453 | the same for consistency proofs |
| ProofMeaning.RangeAgainstOther | src/paillier_zk.rs:51-111 | the same for range proofs |
| ProofMeaning.MulAgainstOther | src/paillier_zk.rs:287-348 | an honest multiplication proof passes against another output only if e' mOut = mIn e scalar modulo n |
| Instances.OtherPlaintextRejected | src/paillier_zk.rs:590-599 | an honest log proof for 2 is rejected against an encryption of 3 |
| Euclid.CofactorModuloCorrect | src/paillier_zk.rs:230-244 | for all arguments `modinv_internal` yields a reduced cofactor of the gcd, which is the inverse when there is one |
| Blum.ComputeCrt | src/paillier_zk.rs:223-228 | for all arguments the code with its own inverse loop computes the combination `Crt` |
| Blum.CrtCongruences | src/paillier_zk.rs:223-228 | the result is in [0, p·q), congruent to a mod p and to b mod q |
| Blum.CrtUnique | src/paillier_zk.rs:223-228 | and is the only such value |
| Blum.RootSquares | src/paillier_zk.rs:130-141 | when both Euler tests return 1 the combined root squares to the argument modulo n |
| Blum.RecordedIff | src/paillier_zk.rs:150-180 | an index is recorded exactly when its challenge is coprime to n and the two Euler tests agree; the bit is the common outcome |
| Blum.ProveBlum | src/paillier_zk.rs:145-187 | the three pushed lists are those of the recorded challenges |
| Blum.RecordedIndices | src/paillier_zk.rs:150-180 | the listed indices are exactly the recorded ones, in increasing order |
| Blum.HonestEntriesHold | src/paillier_zk.rs:145-187 | every recorded root squares to plus or minus its challenge, as its bit says |
| Blum.CountValid | src/paillier_zk.rs:200-218 | the zip stops at the shortest list, and all zipped entries are counted exactly when all hold |
| Blum.VerifyBlum | src/paillier_zk.rs:190-221 | accepts exactly when n = 1 mod 4 and every bit, at least one, comes with an index and a root that holds |
| Blum.BlumComplete | src/paillier_zk.rs:145-221 | an honest proof is accepted exactly when at least one challenge is recorded |
| Blum.VerifySpecMeans | src/paillier_zk.rs:190-221 | accepted exactly when n = 1 mod 4 and every bit, at least one, comes with a root whose square is the challenge, or its negation when the bit is not set |
| Blum.PassableIff | src/paillier_zk.rs:189-221 | some proof passes for n exactly when n = 1 mod 4 and some challenge or its negation is a square mod n |
| Instances.PrimeModulusPasses | src/paillier_zk.rs:189-221 | a prime modulus passes with one entry |
| Ecdsa.AcceptedIff | src/lindell/sign.rs:12-28 | arbitrary r and s are accepted exactly when r is the x-coordinate of s^-1 (z + r x) G, with 0 for the inverse of 0 |
| Ecdsa.ZeroSAcceptedIff | src/lindell/sign.rs:19-27 | with s = 0 modulo q, exactly when r is the x-coordinate reported for the identity |
| Ecdsa.RangesNotTested | src/lindell/sign.rs:19-27 | adding multiples of q to r or s changes no verdict |
| Ecdsa.HonestSignatureAcceptedIff | src/lindell/sign.rs:12-28 | a signature from the signing equation is accepted exactly when s is not 0 or r is the x-coordinate reported for the identity |
| Der.EncodeInt | src/lindell/sign.rs:56-68 | the loop strips leading zeros, keeps the last byte and guards a set top bit |
| Der.ContentCorrect | src/lindell/sign.rs:56-68 | the content octets keep the value, are minimal, read as non-negative and grow by at most one byte |
| Der.BitcoinDerSignature | src/lindell/sign.rs:55-82 | the pushed bytes are the SEQUENCE of the two INTEGERs, with lengths cast to one byte |
| Der.DerLayout | src/lindell/sign.rs:70-81 | the tag and length bytes: 0x30, the length of the rest, 0x02, the length of r, r, 0x02, the length of s, s |
| Der.DerRoundTripIff | src/lindell/sign.rs:55-82 | a strict reader gets both integers back exactly when the content is shorter than 128 bytes |
| Der.DerIsCanonical | src/lindell/sign.rs:55-82 | the reader accepts no other bytes for the same two integers |
| Der.DerOfFixedWidth | src/lindell/sign.rs:55-82 | for all 32-byte r and s both hold, and the encoding has 8 to 72 bytes |
| LindellSign.FindFromSender | src/lindell/sign.rs:242-246 | the search over indexed messages returns the named sender's message, and nothing for the party itself |
| LindellSign.RunSign | src/lindell/sign.rs:168-404 | messages sent and result of one party, for all received messages |
| LindellOutcome.FromSenderMeans | src/lindell/sign.rs:242-246 | a message is found for a sender exactly when it stands at that sender's place |
| LindellOutcome.P2Outcome | src/lindell/sign.rs:241-310 | P2 stops with the first check that fails and answers exactly when both hold |
| LindellOutcome.P2AnswerMeans | src/lindell/sign.rs:264-310 | for any sender with a valid key, an answer forces both proof equations on the plaintext m and encodes m times P2's multiplier |
| LindellOutcome.P1Outcome | src/lindell/sign.rs:319-340 | each error of P1's last round, exactly when its check fails |
| LindellOutcome.P1SendsMeans | src/lindell/sign.rs:338-364 | for any answer that encodes m, the proof equation holds and s is P1's part plus m modulo n |
| LindellOutcome.SignResultIff | src/lindell/sign.rs:319-403 | on arbitrary messages a party returns a signature exactly when the one it tests satisfies the ECDSA equation for the public key, and InvalidSignature exactly when it does not |
| LindellOutcome.BystanderTests | src/lindell/sign.rs:233-237 | a party that is neither P1 nor P2 acknowledges both rounds and tests what P1 sends |
| LindellOutcome.EveryPartyResult | src/lindell/sign.rs:342-403 | in an honest run with any Paillier key every party returns P1's signature if it satisfies the equation and InvalidSignature otherwise |
| Instances.WrongSignatureRejected | src/lindell/sign.rs:366-368 | in the run with n = 77 and q = 13 every party rejects the wrong signature |
| LindellSign.P1ProofsPass | src/lindell/sign.rs:270-279 | both of P1's honest proofs pass P2's checks |
| LindellSign.P1MessageIs | src/lindell/sign.rs:319-364 | P1 gets past every check of round 3 |
| LindellSign.DecryptedProduct | src/lindell/sign.rs:281-346 | P1 decrypts the product of the nonce inverse and P2's multiplier modulo n |
| LindellSign.SumOfProduct | src/lindell/sign.rs:348-352 | with the unreduced product the two parts add up to k^-1 (z + r x) |
| LindellSign.P1SignatureCorrectIff | src/lindell/sign.rs:281-366 | P1's r is right, and its s is right exactly when q divides the modulus or the number of wraps; for n >= q not a multiple of q, exactly when the product is below n |
| LindellModulus.WrappingRunFails | src/lindell/sign.rs:281-352 | for every key with n <= (q-1)^2 not a multiple of q, an honest run in which P1 sends a wrong s |
| LindellModulus.AlwaysRightIff | src/lindell/sign.rs:281-352 | every honest run with a key signs right if and only if n > (q-1)^2 or q divides n |
| Instances.SmallModulusBreaksSignature | src/lindell/sign.rs:281-352 | a concrete honest run with q <= n <= (q-1)^2 in which P1 sends a wrong s |
| LindellSign.LindellEndToEnd | src/lindell/sign.rs:168-404 | with n > (q-1)^2 no check fails and every party returns (r, k^-1 (z + r x)), accepted exactly when s is not 0 or r is the identity's x-coordinate |
| LindellSign.DkgThenSign | src/lindell/sign.rs:162-404 | the same over shares from an honest `run_dkg` with threshold at most 2 |
| LindellSign.RefreshThenSign | src/lindell/dkg.rs:121-142 | the same signature is returned after any number of honest refreshes |
| CggmpKeygen.EncIndexSelectsOwnEntry | src/cggmp21/keygen.rs:198-205 | the receiver's index rule selects the one entry the sender's skip-self loop made for it |
| CggmpKeygen.CheckBlumProofs | src/cggmp21/keygen.rs:90-105 | the loop accepts exactly when all proofs verify, and then holds every party's key at its index |
| CggmpKeygen.EncryptAllShares | src/cggmp21/keygen.rs:130-154 | entry k of the list is the share for the k-th other party under that party's key |
| CggmpKeygen.Combine | src/cggmp21/keygen.rs:167-225 | the loop reports the first failing message, otherwise adds all decrypted shares and constant terms |
| CggmpKeygen.RunKeygen | src/cggmp21/keygen.rs:56-234 | broadcasts and result of one party, for all received messages |
| CggmpKeygen.ShareDelivered | src/cggmp21/keygen.rs:198-224 | party i finds its ciphertext, its log proof passes, and it decrypts to f_j(i+1) |
| CggmpKeygen.HonestKeygenResult | src/cggmp21/keygen.rs:56-234 | an honest party reports a failed Blum proof exactly when some peer recorded no index; never returns exactly when, with other parties present, only its own key recorded none; and otherwise ends with the sum of f_j(i+1), the common key and all Paillier keys |
| CggmpKeygen.CheckMessageIs | src/cggmp21/keygen.rs:170-219 | each error of one round-3 message exactly when its hash, Schnorr equation, index or log proof fails |
| CggmpKeygen.GeneratedIff | src/cggmp21/keygen.rs:90-233 | for arbitrary peers a key is generated exactly when every Blum proof and every message passes |
| CggmpKeygen.GeneratedShareIs | src/cggmp21/keygen.rs:198-233 | for arbitrary peers the generated share is the own share plus what the addressed ciphertexts decrypt to, modulo q |
| CggmpKeygen.BoundShareIsConsistent | src/cggmp21/keygen.rs:198-224 | where the peers' log proofs bind, G times the generated share is the sum of all committed polynomials at i+1 |
| CggmpKeygen.GeneratedKeyIs | src/cggmp21/keygen.rs:167-233 | whatever the peers sent, a generated key is the sum of all revealed constant terms |
| CggmpKeygen.KeyAgreement | src/cggmp21/keygen.rs:167-233 | two honest parties that generate a key over the same reliably broadcast round-3 messages hold the same one, whatever the others sent |
| Instances.HonestBlumRejection | src/cggmp21/keygen.rs:90-96 | honest parties with 128 challenges that record nothing reject each other |
| Instances.HonestPartyWaits | src/cggmp21/keygen.rs:90-126 | when only one party's challenges record nothing, its peer stops and it never returns |
| CggmpPresign.FindPosition | src/cggmp21/presign.rs:95-98 | the first position of i among the signers |
| CggmpPresign.SumPoints | src/cggmp21/presign.rs:155-175 | the reveal loop succeeds exactly when every point opens its commitment, and then returns their sum |
| CggmpPresign.EncryptToPeers | src/cggmp21/presign.rs:182-212 | every other signer is sent the nonce share under its own key |
| CggmpPresign.SumNonces | src/cggmp21/presign.rs:217-228 | the total is the sum of the own and all decrypted shares modulo q; a missing ciphertext adds nothing |
| CggmpPresign.RunPresign | src/cggmp21/presign.rs:84-239 | messages and result of one signer, for all received messages |
| CggmpPresign.PresignResultIff | src/cggmp21/presign.rs:155-238 | for arbitrary peers a mismatch exactly when some point does not open its commitment; otherwise the sums of points and nonce shares and the inverse, unless the sum is 0 |
| CggmpPresign.NonceShareIs | src/cggmp21/presign.rs:222-225 | a missing ciphertext adds 0, any other what it decrypts to |
| CggmpPresign.SentRangeProofPasses | src/cggmp21/presign.rs:190-206 | the range proof that is sent would be accepted |
| CggmpPresign.NonceShareDelivered | src/cggmp21/presign.rs:216-226 | a decrypts exactly the nonce share b drew |
| CggmpPresign.EveryNonceArrivesIff | src/cggmp21/presign.rs:188-226 | every nonce share below q survives encryption to a key exactly when its modulus is at least q |
| CggmpPresign.NonceAgreement | src/cggmp21/presign.rs:155-238 | every signer computes the same k = sum of the k_j mod q and its point is k·G |
| CggmpPresign.PresignedInverse | src/cggmp21/presign.rs:228-238 | in a finished presignature k·k_inv = 1, the point is k·G and r is its x-coordinate |
| CggmpSign.RunOnlineSign | src/cggmp21/sign.rs:47-110 | shares sent and result of one signer, for all received shares |
| CggmpSign.AddReceived | src/cggmp21/sign.rs:89-96 | the loop adds the own and all received shares modulo q |
| CggmpSign.OnlineSignResultIff | src/cggmp21/sign.rs:89-109 | for arbitrary shares a signature is returned exactly when their sum satisfies the ECDSA equation, and InvalidSignature exactly when it does not |
| CggmpSign.AnySignersResult | src/cggmp21/sign.rs:68-109 | any number of signers with any shares test the s of the value their shares reconstruct |
| Instances.TooFewSigners | src/cggmp21/sign.rs:101-103 | one signer of a threshold-2 key rejects its own total |
| CggmpSign.SharesAddUp | src/cggmp21/sign.rs:68-96 | the signers' shares sum to k^-1 (z + r x) |
| CggmpSign.EverySignerAgrees | src/cggmp21/sign.rs:89-109 | every signer returns the same verdict on the same signature |
| CggmpSign.OnlineSignCorrect | src/cggmp21/sign.rs:47-110 | over a presignature of nonce k every signer returns (r, k^-1 (z + r x)), accepted exactly when s is not 0 or r is the identity's x-coordinate |
| CggmpSign.CggmpEndToEnd | src/cggmp21/sign.rs:47-110 | key generation, presigning and signing composed, for every n, t and set of at least t distinct signers |

## Left out

- PaillierZk.ConsistencyAcceptsIff: z is a natural number, because the code's `modpow` panics on a negative exponent; LogAcceptsIff likewise.
- Paillier.DecryptEncrypt: messages are non-negative, because `encrypt_with_rho` uses the message as a `modpow` exponent.
- Paillier.GenerateKeypairExt: the prime generator is a finite stream of primes, so the model can also run out of draws; by `LongerStreamSameKey` that is the only difference from an endless stream. That the loop ends with probability one is not stated.
- Blum.ProveBlum: the two factors and the modulus are positive; `modpow` panics on a zero modulus.
- Blum.VerifyBlum: indices are unbounded; in the code they are 64-bit.
- Core.EvaluatePolynomial: the random coefficients are taken from a list of draws.
- Der.BitcoinDerSignature: inputs are non-empty, because the code underflows on an empty byte string; the reader knows only short-form lengths.
- CggmpKeygen.RunKeygen: the number of Blum challenges (128 in the code) is a parameter; the theorems hold for every number.
- LindellSign.RunSign: a modulus of 0 in a received message is not modelled; the code panics on it. CggmpPresign.RunPresign likewise.
- `ethereum_signature` and the bits `recovery_id` reads: byte formatting. The two protocols' recovery ids use different bits and are not claimed to agree.
- Byte encodings of scalars, points and digests: every byte string the code reduces modulo q is given as the integer it encodes, except in `Der`.
- `u16` party indices: indices are unbounded and below q; the overflow of `i + 1` at 65535 is not modelled.
- Zero nonces: Lindell's nonce draw is nonzero; `expect` on a zero sum of CGGMP21 nonces is the result `ZeroNonce`.
- `generate_shares_internal` and `update_private_share`: the first repeats the loops of `evaluate_polynomial`, the second is one more sum; only the repository's own tests call them.
- `src/mta.rs`: used by neither protocol.
- `src/main.rs`, the example programs and `keygen-sign.sh`: command line, files and printing; the smaller Paillier size they allow is why n > (q-1)^2 and n >= q are explicit hypotheses.
- `src/tcp_delivery.rs`: sockets; delivery is reliable broadcast plus sender-tagged point-to-point messages.
- Transport errors and the session id: the hash functions are those of one session.
- Key files: serialization by library codecs.
- Secrecy, zero knowledge and soundness: for dishonest peers only what the checks force is stated.
