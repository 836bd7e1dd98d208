# crypto-demo in Dafny

A verified model of the arithmetic and rule tables behind the crypto-demo
web application:

- **Modular exponentiation.** The square-and-multiply `modPow` of
  `src/utils/math.js` is modelled once (`MathUtils`). Its copies in the
  man-in-the-middle page and the RSA mapping visualisation delegate to it.
- **Textbook RSA** of `src/rsa/index.js` (`Rsa`):
  - Euclid's `gcd` and the extended-Euclid `multiplicativeInverse`;
  - trial-division `isPrime` and `generateKeypair`;
  - per-character `encrypt`/`decrypt` into zero-padded hex groups.
  - The number theory behind it is proved from first principles:
    - `NumberTheory`: gcd, Bezout, powers and modular arithmetic;
    - `Fermat`: the binomial theorem, Fermat's little theorem, and RSA correctness for two distinct primes.
  - Hex text is modelled in `Hex`.
- **The RSA mapping visualisation** `src/components/RSAVizMap.jsx`
  (`RsaVizMap`):
  - the `RSACalculator` class, whose Bezout-tracking `modInverse` uses floor division;
  - the fix-point list and `findEncryptedIndex`;
  - the step controls.
- **The Diffie-Hellman man-in-the-middle computation** of
  `src/components/MITM/MITM.jsx` (`Mitm`): ZZ = y^x mod p as in section
  2.1.1 of RFC 2631, computed once for each of Alice and Bob with Mallory.
- **The step-by-step RSA wizard** `src/pages/RSAVisualizer.jsx`
  (`RsaVisualizer`):
  - its state variables as a class;
  - each step's `validate`/`onNext`;
  - `handleNext`/`handlePrevious`;
  - the linear-search `modInverse`.
  - JavaScript's `parseInt` with no radix and `trim` are modelled in `JsText`:
    leading whitespace, an optional sign, then decimal digits, or hex digits
    after a "0x"/"0X" prefix.
- **Risk rules:**
  - `SecurityToolkit.upgradeRisk`, `analyzeConfiguration` and the
    part-count check of `analyzeJWT` (`src/components/STT.jsx`, `Stt`);
  - `getRiskLevel`, `getVulnerabilityList` and `getMitigationStrategies`
    (`src/components/CCS.jsx`, `Ccs`).

JavaScript semantics are modelled where they matter:

- `parseInt` returns `None` for NaN, and every `<` or `>` with NaN is false.
  A bare "0x" prefix with no hex digit after it is NaN, not 0.
- JavaScript `%` keeps the sign of the dividend. Every dividend in `modPow`
  is non-negative, so there it agrees with Dafny's `%`.
- `Math.floor` division is `NumberTheory.FloorDiv`.
- `Array.from(text)` iterates by code point and `charCodeAt(0)` keeps the
  first code unit (`Rsa.FirstUnits`).
- `String.fromCharCode` reduces modulo 2^16.
- `Object.values` of a string yields its characters and of a number
  yields nothing.

Integers are unbounded. In `src/rsa/index.js` only `encrypt` and `decrypt`
use `BigInt`; key generation computes with doubles. Doubles are exact up to
2^53, and rounding above that is not modelled (see "## Left out"). The other
components also use doubles; their number inputs have no upper bound, and
the model treats every value as exact.

## Model

| member | source | states |
|---|---|---|
| MathUtils.PowModulo | src/utils/math.js:1-13 | modPow's value is never negative, lies below any modulus of at least 2, and is 0 for modulus 1 whatever the base and exponent |
| MathUtils.ModPow | src/utils/math.js:1-13 | the square-and-multiply loop returns PowModulo; the invariant is result * base^exponent ≡ B^E (mod m), and the loop stops because the exponent is halved |
| MathUtils.PowModuloIsPower | src/utils/math.js:1-13 | for base >= 0 and modulus >= 2 the result is exactly base^exponent mod modulus, including exponent 0 |
| MathUtils.PowModuloZeroExponent | src/utils/math.js:3-12 | exponent 0 yields 1 once the modulus is at least 2 |
| MathUtils.PowModuloReducedBase | src/utils/math.js:4 | the result depends only on base mod modulus |
| MathUtils.SquareAndMultiplyStep | src/utils/math.js:5-11 | one iteration (multiply on an odd exponent, square, halve) keeps result * base^exponent unchanged modulo m |
| Mitm.ModPow | src/components/MITM/MITM.jsx:6-18 | the page's copy of modPow has the same result as src/utils/math.js |
| RsaVizMap.RSACalculator.ModPow | src/components/RSAVizMap.jsx:47-59 | the calculator's copy of modPow has the same result as src/utils/math.js |
| Rsa.Gcd | src/rsa/index.js:1-6 | for a, b >= 0 the remainder loop returns the greatest common divisor: a common divisor that every common divisor divides (so gcd(a, 0) == a) |
| Rsa.InverseInvariantStep | src/rsa/index.js:10-15 | one step of multiplicativeInverse keeps phi_i = x1·phi + y1·e and e_i = x0·phi + y0·e, keeps the gcd, and keeps the coefficients of e bounded |
| Rsa.InverseAtExit | src/rsa/index.js:16-17 | when the remainder reaches 0 with 1 left, the coefficient y1, shifted by phi when negative, is the inverse of e in [0, phi) |
| Rsa.MultiplicativeInverse | src/rsa/index.js:7-18 | null exactly when gcd(e, phi) != 1; otherwise r with 0 <= r < phi and (r·e) % phi == 1 |
| Rsa.TrialDivisionSuffices | src/rsa/index.js:21-24 | trying every i with i·i <= num is enough: no divisor below the square root means num is prime |
| Rsa.IsPrime | src/rsa/index.js:19-25 | true exactly for prime numbers; false below 2 |
| Rsa.GenerateKeypair | src/rsa/index.js:26-44 | "must be prime" exactly when p or q is not prime, so (4, 4) gets it; "cannot be the same" exactly for equal primes; otherwise n = p·q in both keys, 1 <= e < phi, gcd(e, phi) == 1, and (d·e) % phi == 1; the missing-inverse error never occurs |
| Rsa.FirstUnitsIdentity | src/rsa/index.js:47-48 | the cipher sees every code unit exactly when the text holds no surrogate pair, and strictly fewer otherwise |
| Rsa.Encrypt | src/rsa/index.js:45-52 | the ciphertext is hex; for 1 <= n <= 0x10000 it holds exactly four digits per character |
| Rsa.Decrypt | src/rsa/index.js:53-62 | one character per group of four hex digits, the last group possibly shorter; empty ciphertext gives empty text |
| Rsa.GroupsReadBack | src/rsa/index.js:48-49 | when n - 1 fits in w hex digits, every padded group has exactly w digits and reads back as c^e mod n |
| Rsa.RoundTrip | src/rsa/index.js:45-62 | for a generated key pair with n <= 0x10000 and every code unit below n, decrypt(encrypt(m)) is m (with each surrogate pair cut to its high half) |
| Rsa.WideModulusBreaksRoundTrip | src/rsa/index.js:45-62 | the key pair p = 257, q = 263, e = 5, d = 26829 can be generated, and "(" encrypts to the five digits "1069a", which decrypt reads back as two characters |
| Rsa.FixedWidthRoundTrip | src/rsa/index.js:45-62 | with groups as wide as n - 1 needs, the round trip holds for every generated key pair |
| Rsa.EncryptFixedWidth | src/rsa/index.js:45-52 | the fixed-width cipher is hex and agrees with encrypt whenever n <= 0x10000 |
| Rsa.DecryptFixedWidth | src/rsa/index.js:53-62 | the fixed-width decipher agrees with decrypt whenever n <= 0x10000 |
| Hex.PaddedRoundTrip | src/rsa/index.js:49-57 | a value whose hex fits in w digits, zero-padded to w, is w hex digits that parse back to the value |
| Hex.ChunksOfConcat | src/rsa/index.js:51-55 | cutting every w characters undoes joining groups of exactly w characters |
| Fermat.RsaRoundTrip | src/rsa/index.js:48-58 | for distinct primes p, q, (e·d) % phi == 1 and m < p·q, (m^e mod n)^d mod n == m |
| RsaVizMap.ModInverseStep | src/components/RSAVizMap.jsx:29-34 | one floor-division step keeps old_r == old_s·a + old_t·m and r == s·a + t·m, keeps gcd(old_r, r) == gcd(a, m), and shrinks the remainder |
| RsaVizMap.ModInverseExit | src/components/RSAVizMap.jsx:34-36 | at exit the adjusted old_s lies in [0, m]; for m > 1 and gcd(a, m) == 1 it is below m and (a·x) % m == 1 |
| RsaVizMap.NoInverseWithoutCoprimality | src/components/RSAVizMap.jsx:24-37 | without coprimality no x has (a·x) % m == 1, so modInverse's result then means nothing |
| RsaVizMap.RSACalculator.ModInverse | src/components/RSAVizMap.jsx:24-37 | for m > 0 the result is in [0, m]; when m > 1 and gcd(a, m) == 1 it is the inverse of a in [0, m) |
| RsaVizMap.RSACalculator.constructor | src/components/RSAVizMap.jsx:11-22 | stores p, q, e, sets n = p·q and phi = (p - 1)(q - 1), and sets d to the inverse of e when one exists; the fields are constants, which no method changes |
| RsaVizMap.RSACalculator.Encrypt | src/components/RSAVizMap.jsx:39-41 | message^e mod n |
| RsaVizMap.RSACalculator.Decrypt | src/components/RSAVizMap.jsx:43-45 | ciphertext^d mod n |
| RsaVizMap.CalculatorRoundTrip | src/components/RSAVizMap.jsx:39-45 | decrypt(encrypt(x)) == x for 0 <= x < n when p != q are primes and gcd(e, phi) == 1 |
| RsaVizMap.DefaultCalculator | src/components/RSAVizMap.jsx:64-74 | the defaults p = 7, q = 11, e = 17 give n = 77, phi = 60, d = 53 |
| RsaVizMap.BuildFixPoints | src/components/RSAVizMap.jsx:126-141 | two points per message from messageStart to messageEnd: the plaintext at 2i and its ciphertext at 2i + 1 |
| RsaVizMap.FirstCiphertextFrom | src/components/RSAVizMap.jsx:82-84 | findIndex: the first ciphertext point holding the value, or -1 when none does |
| RsaVizMap.FindEncryptedIndex | src/components/RSAVizMap.jsx:81-86 | -1 exactly when no ciphertext point holds the value (floor(-1/2) == -1), otherwise a column >= 0 |
| RsaVizMap.FindEncryptedIndexColumn | src/components/RSAVizMap.jsx:81-86 | on the interleaved list, the column found is the first message whose ciphertext is the value, and the point at 2·column + 1 holds it |
| RsaVizMap.StepControls.Next | src/components/RSAVizMap.jsx:257-259 | currentStep becomes min(currentStep + 1, connections.length) and stays within [0, connections.length] |
| RsaVizMap.StepControls.Previous | src/components/RSAVizMap.jsx:265 | currentStep becomes max(currentStep - 1, 0) and stays within [0, connections.length] |
| RsaVizMap.StepControls.Reset | src/components/RSAVizMap.jsx:228-232 | currentStep returns to 0, as for Reset and for updateParameters |
| RsaVizMap.StepControls.TogglePlaying | src/components/RSAVizMap.jsx:242-247 | Pause/Continue flips isPlaying and leaves the step alone |
| RsaVizMap.StepControls.Tick | src/components/RSAVizMap.jsx:216-222 | an autoplay tick stops playing at the end and otherwise moves one step on, staying within [0, connections.length] |
| Mitm.SharedKey | src/components/MITM/MITM.jsx:138-147 | (g^y mod p)^x mod p == (g^x mod p)^y mod p for every modulus except -1 |
| Mitm.ExchangeValues | src/components/MITM/MITM.jsx:138-147 | for p >= 2 the four public values lie in [0, p); aliceFinal == malloryAlice and bobFinal == malloryBob |
| Mitm.Simulate | src/components/MITM/MITM.jsx:121-147 | nothing is computed exactly when one of p, g, a, b, c, d is 0 or NaN; otherwise the eight values of ExchangeValues |
| Mitm.KeysDifferForModulusMinusOne | src/components/MITM/MITM.jsx:138-147 | with p = -1 Alice's key and Mallory's key for her differ (1 and 0), so the agreement needs p != -1 |
| Mitm.DefaultExchange | src/components/MITM/MITM.jsx:240-281 | the defaults give public values 8, 16, 4, 17, and keys 12 (Alice and Mallory) and 9 (Bob and Mallory) |
| JsText.ParseHexPrefixed | src/pages/RSAVisualizer.jsx:28-28 | after "0x" or "0X", parseInt reads the hex digits that follow, in either case, and stops at the first other character |
| JsText.ParseBareHexPrefix | src/pages/RSAVisualizer.jsx:28-28 | "0x" or "0X" with no hex digit after it parses to NaN |
| JsText.HexExampleLower | src/pages/RSAVisualizer.jsx:28-28 | parseInt("0x11") is 17 |
| JsText.HexExampleNegative | src/pages/RSAVisualizer.jsx:28-28 | parseInt("-0X1f") is -31: the sign comes before the prefix |
| JsText.HexExampleBare | src/pages/RSAVisualizer.jsx:28-28 | parseInt("0x") is NaN |
| RsaVisualizer.IsPrime | src/pages/RSAVisualizer.jsx:185-191 | the page's isPrime holds exactly for primes and for NaN (every comparison with NaN is false) |
| RsaVisualizer.ModInverse | src/pages/RSAVisualizer.jsx:200-206 | for gcd(e, phi) == 1 and phi >= 2 the linear search returns the least d >= 1 with (d·e) % phi == 1, below phi |
| RsaVisualizer.SearchNeverEnds | src/pages/RSAVisualizer.jsx:200-206 | when phi == 1 or gcd(e, phi) != 1 no d satisfies the loop's exit test, so the search never ends |
| RsaVisualizer.LeastInverseIsTheInverse | src/pages/RSAVisualizer.jsx:200-206 | the least inverse found is the only inverse in [0, phi) |
| RsaVisualizer.NextKeepsValid | src/pages/RSAVisualizer.jsx:237-250 | an accepted step keeps every earlier step's facts: prime p, prime q != p, details with n = p·q, phi = (p-1)(q-1) and d the inverse of e, and a non-blank message |
| RsaVisualizer.DetailsAreKeyPair | src/pages/RSAVisualizer.jsx:106-122 | past the exponent step, the stored details form a key pair of the kind generateKeypair returns |
| RsaVisualizer.Advance | src/pages/RSAVisualizer.jsx:31-141 | the onNext of an accepted step followed by setStep(step + 1), keeping the state valid |
| RsaVisualizer.Wizard.constructor | src/pages/RSAVisualizer.jsx:5-10 | step 0, p and q null, empty message, no details, empty field |
| RsaVisualizer.Wizard.SetInput | src/pages/RSAVisualizer.jsx:22 | only the input field changes |
| RsaVisualizer.Wizard.Validate | src/pages/RSAVisualizer.jsx:27-137 | a prime > 1 for p; also != p for q; 1 < e < phi with gcd(e, phi) == 1 for e, within that range exactly the case where modInverse ends; a message that is not blank; the calculation steps accept anything |
| RsaVisualizer.Wizard.HandleNext | src/pages/RSAVisualizer.jsx:237-250 | moves on (with the step's onNext) exactly when validate holds; otherwise nothing changes |
| RsaVisualizer.Wizard.HandlePrevious | src/pages/RSAVisualizer.jsx:253-257 | steps back only when step > 0; with Next offered only below the last step, step stays in [0, 7] |
| Stt.Rank | src/components/STT.jsx:157-159 | indexOf in ["low", "medium", "high", "critical"]: -1 exactly for an unlisted level |
| Stt.UpgradeRisk | src/components/STT.jsx:156-161 | the more severe of the two levels; undefined when neither is listed |
| Stt.UnlistedKeepsCurrent | src/components/STT.jsx:156-161 | an unlisted new level such as AES-256's "none" leaves the current level unchanged |
| Stt.UpgradeRiskCommutes | src/components/STT.jsx:156-161 | upgradeRisk(a, b) == upgradeRisk(b, a) |
| Stt.UpgradeRiskIdempotent | src/components/STT.jsx:156-161 | upgradeRisk(a, a) == a on the listed levels |
| Stt.UpgradeRiskAssociates | src/components/STT.jsx:156-161 | upgradeRisk is associative on the listed levels, so the order of matches does not matter |
| Stt.SecurityToolkit.constructor | src/components/STT.jsx:6-56 | vulnerableConfigs is the fixed table, a constant no method modifies |
| Stt.SecurityToolkit.AnalyzeConfiguration | src/components/STT.jsx:125-154 | the issues of the algorithm, key-length and mode entries in that order; exactly one warning for PKCS1v1.5 padding and none otherwise; a listed level at least as severe as every matched risk (PKCS1v1.5 counting as "medium"), which is "low" or one of those risks |
| Stt.ApplyEntry | src/components/STT.jsx:130-146 | one matched table entry appends its issues and raises the level |
| Stt.MergeStep | src/components/STT.jsx:133-150 | raising the level with one more risk keeps it the most severe of those matched so far |
| Stt.MergedLevelUnique | src/components/STT.jsx:125-154 | the level merged from the matched risks is unique |
| Stt.NothingMatched | src/components/STT.jsx:125-154 | a configuration matching no entry, with other padding, gives level "low", no issues and no warnings |
| Stt.PkcsAtLeastMedium | src/components/STT.jsx:148-151 | PKCS1v1.5 padding raises the level to at least "medium" |
| Stt.DesEcbIsCritical | src/components/STT.jsx:125-154 | DES in ECB mode is "critical", with the DES issues before the ECB ones |
| Stt.Aes256IsLow | src/components/STT.jsx:125-154 | AES-256 matches its entry, but the entry's risk "none" leaves the level at "low" |
| Stt.SplitJoin | src/components/STT.jsx:83 | token.split(".") loses nothing: joining the parts gives the token back, and there is one part more than there are dots |
| Stt.CheckJwtParts | src/components/STT.jsx:83-89 | a token that passes has exactly three parts, which join back to the token |
| Stt.CheckJwtPartsIff | src/components/STT.jsx:83-89 | "Invalid JWT format" exactly when the token does not have two dots |
| Ccs.ObjectValues | src/components/CCS.jsx:15-21 | Object.values of a component yields only one-character strings |
| Ccs.KeyLengthTestsNeverHold | src/components/CCS.jsx:15-21 | neither "1024" nor "2048" is ever among the Object.values of a component |
| Ccs.GetRiskLevel | src/components/CCS.jsx:13-25 | always one of the three labels |
| Ccs.GetRiskLevelCases | src/components/CCS.jsx:13-25 | "HIGH RISK" exactly for "ECB" and "3DES", "MEDIUM RISK" exactly for "CBC", "LOW RISK" for every other value |
| Ccs.KeyLength1024IsLowRisk | src/components/CCS.jsx:13-25 | a 1024-bit key length, as text or as a number, is labelled "LOW RISK" |
| Ccs.IntendedRiskLevel | src/components/CCS.jsx:13-25 | the evidently intended labels: high for 1024, ECB and 3DES; medium for 2048 and CBC; low otherwise |
| Ccs.IntendedAgreesElsewhere | src/components/CCS.jsx:13-25 | the intended labels and getRiskLevel agree on every value except the two key lengths |
| Ccs.SelectedMembership | src/components/CCS.jsx:28-52 | an entry is in the built list exactly when some position holding it has its condition true |
| Ccs.GetVulnerabilityList | src/components/CCS.jsx:27-53 | AES: the quantum, ECB and CBC entries under their conditions; RSA: factorization below 2048, then Bleichenbacher for PKCS1v1.5; 3DES: Sweet32 then meet-in-the-middle, whatever else is set; nothing for other algorithms |
| Ccs.GetMitigationStrategies | src/components/CCS.jsx:55-75 | AES: the upgrade below 256 bits and GCM for ECB only (nothing for CBC); RSA: a longer key below 2048 and OAEP for PKCS1v1.5; 3DES: only "Migrate to AES-256-GCM"; nothing for other algorithms |
| Ccs.AesVulnerabilities | src/components/CCS.jsx:30-41 | for AES the quantum entry is present exactly below 256 bits, and at most one of the ECB and CBC entries |
| Ccs.RsaVulnerabilities | src/components/CCS.jsx:42-46 | for RSA the factorization entry is present exactly below 2048 bits, and comes first; Bleichenbacher is present exactly for PKCS1v1.5, and comes last |

## Left out

- Rendering and timing are not modelled:
  - React rendering and hooks;
  - the DOM, the canvas drawing and the animations (the MITM page's message animation and `AnimationContainer`);
  - `setInterval` and `setTimeout`;
  - alerts and console output.
  - The autoplay interval is modelled only as single ticks (`RsaVizMap.StepControls.Tick`).
- Files that are pure presentation or glue are not part of this model:
  - `ParticipantBox`, `ResultDisplay`, both `App.jsx` files and the toolkit page;
  - `src/pages/RSA.jsx`, which only passes input to `generateKeypair`;
  - `src/components/CTF.jsx`, whose flag check is a random parity.
- Rsa.GenerateKeypair: the random choice of `e` is a nondeterministic pick of any `e` that ends the retry loop (1 <= e < phi, coprime to phi). The retry loop itself, and whether random retries terminate, are not modelled.
- Rsa.Gcd, Rsa.MultiplicativeInverse, Rsa.IsPrime, Rsa.GenerateKeypair: compute with exact integers, where the source uses doubles (`p * q`, `(p - 1) * (q - 1)`, `Math.floor(phi / e)`). Rounding once a value exceeds 2^53 is not modelled, so for primes such as 100000007 and 100000037 the model's n = p·q is exact where the source's is rounded.
- Rsa.MultiplicativeInverse: requires 0 <= e < phi, the range its only caller passes. Other arguments are not modelled.
- Rsa.Encrypt, Rsa.Decrypt, Rsa.EncryptWithWidth, Rsa.DecryptWithWidth: require n != 0 and a non-negative exponent. With n == 0 or a negative exponent `BigInt` throws a `RangeError`, which is not modelled. Generated keys always meet these requirements.
- Rsa.Decrypt: ciphertext that is not hex is not modelled, because there `parseInt` is NaN and `BigInt(NaN)` throws.
- `Math.sqrt` in both `isPrime`s is replaced by the exact test i·i <= num. Floating point is not modelled.
- The `Math.pow`-based `encrypt`/`decrypt` of `src/pages/RSAVisualizer.jsx` are not modelled. They lose precision once a power exceeds 2^53, and the exact `BigInt` cipher of `src/rsa/index.js` is modelled instead.
- Mitm.ModPow, MathUtils.ModPow, RsaVizMap.RSACalculator.ModPow, RsaVizMap.RSACalculator.Encrypt, RsaVizMap.RSACalculator.Decrypt and RsaVizMap.BuildFixPoints require a non-negative base (message, ciphertext or first message) and a non-zero modulus. A negative base keeps its sign under JavaScript `%`, and modulus 0 gives NaN; the visualiser's number inputs allow both, and those cases are not modelled.
- Mitm.Simulate: `parseInt` of the six fields is taken as given (`Option<int>`), and a negative generator is not modelled.
- RsaVizMap.RSACalculator.constructor: `d` is stated only when e is a unit modulo phi > 1. Otherwise the source computes a meaningless value, which the model keeps but states nothing about.
- `updateParameters` is modelled only as its return to step 0 (`RsaVizMap.StepControls.Reset`). Building a new calculator is the constructor.
- The connection list and its sort comparator are not modelled. The comparator ignores its second argument, so the order depends on the engine.
- JWT generation and the rest of `analyzeJWT` are not modelled. Only the part-count check is kept, because the rest uses `btoa`/`atob`, `JSON` and `Date.now`.
- Stt.SecurityToolkit.AnalyzeConfiguration: the key length is looked up by its text. Inherited `Object.prototype` keys such as "constructor" are not modelled as matches.
- The HTML and PDF report assembly of the configuration simulator is not modelled. This includes `getImplementationGuidelines` and the other text getters.
- Ccs.GetVulnerabilityList and Ccs.GetMitigationStrategies take the key length as the number `<` compares: `None` for NaN. The conversion of select text to a number is not modelled.
- Ccs.GetRiskLevel: components are text or whole numbers. Other JavaScript values are not modelled.

## Findings

| source | as written | input that shows it | evidently intended | confidence | as-written member | corrected member |
|---|---|---|---|---|---|---|
| src/rsa/index.js:49-55 | encrypt pads each group to at least 4 hex digits, but decrypt cuts the ciphertext every 4 digits | p = 257, q = 263, e = 5, d = 26829 (n = 67591): "(" encrypts to "1069a", which decrypts to 2 characters | every group as wide as the largest value below n, so that decrypt(encrypt(m)) == m for every generated key pair | not executed | Rsa.WideModulusBreaksRoundTrip | Rsa.FixedWidthRoundTrip |
| src/components/CCS.jsx:15-21 | `Object.values(component).includes("1024")` and `("2048")` never hold: a string yields single characters and a number yields nothing | key length "1024" (or 1024) is labelled "LOW RISK" | "HIGH RISK" for a 1024-bit key and "MEDIUM RISK" for 2048 | not executed | Ccs.KeyLength1024IsLowRisk | Ccs.IntendedRiskLevel |
