# sseq: default algebra operations, module specifications and the `(s, t)` scheduler

This project models, in Dafny, three pieces of the `sseq` spectral sequence
software (the `ext` crate and its `algebra` crate) and proves what they
promise.

- **The `Algebra` trait** (`algebra_trait.dfy`, module `AlgebraTrait`). A
  graded algebra over F_p supplies its prime, the dimension of each degree,
  the product of two basis elements and the names of basis elements. These
  abstract members are the function-valued fields of an `Algebra` value, so
  every concrete algebra is covered. The trait's default bodies are modelled
  on top of them:
  - the three derived products (basis by element, element by basis, element
    by element), as loops that add into a window of an `array<nat>` starting
    at an offset, the model of a non-aligned `SliceMut`;
  - `element_to_string`, as a loop that pushes terms and then pops the
    trailing `" + "`;
  - the trivial defaults `magic`, `default_filtration_one_products` and
    `generator_to_string`;
  - the contract of `decompose_basis_element` of `GeneratedAlgebra`.

  Each product is proved to add exactly a double sum of basis products,
  modulo p, into the window and to touch nothing else. Those sums are proved
  bilinear modulo p and compatible with one another.
- **Module specifications** (`utils.dfy`, module `Utils`):
  - `Config::try_from` on `"name@algebra"` and on `(name, algebra)`;
  - the shift suffix `name[k]` of `parse_module_name`, which raises every
    generator degree by `k`;
  - `ascii_num`;
  - the text `print_element` writes.
- **The scheduler `iter_s_t`** (`scheduler.dfy`, module `Scheduler`). It
  calls `f(s, t)` over a grid of bidegrees so that a bidegree runs only once
  the row below is done far enough. It is modelled as a worklist drained in
  an arbitrary order, which stands for every order the parallel version may
  take. The model proves:
  - every call is in bounds;
  - every call respects the dependency rule;
  - the calls made are exactly the bootstrap and what earlier calls
    unlocked;
  - the worklist terminates.

Shared pieces: `results.dfy` (`Option`, `Result`), `strings.dfy` (joining,
`str::split`, decimal rendering, `i64` parsing) and `modular.dfy` (arithmetic
modulo p on integer vectors, and the `AddedInto` relation that says a window
received a vector modulo p and nothing else changed).

## Model

| member | source | states |
|---|---|---|
| AlgebraTrait.Magic | ext/crates/algebra/src/algebra/algebra_trait.rs:21-29 | an algebra that does not override it has save-file magic 0 |
| AlgebraTrait.DefaultFiltrationOneProducts | ext/crates/algebra/src/algebra/algebra_trait.rs:139-148 | by default there are no filtration-one products |
| AlgebraTrait.MultiplyBasisElements | ext/crates/algebra/src/algebra/algebra_trait.rs:47-59 | the contract every algebra's basis product must meet: it adds `coeff * (r * s)` modulo p into the window at the offset, which need not be aligned, and changes nothing outside it; it is only called with `coeff < p` |
| AlgebraTrait.MultiplyBasisElementByElement | ext/crates/algebra/src/algebra/algebra_trait.rs:61-85 | adds into the window, modulo p, exactly the sum over the non-zero `s[i]` of `((coeff * s[i]) mod p) * (r * b_i)`; leaves every entry outside the window alone; a zero `s` leaves `result` unchanged; every coefficient passed down is below p |
| AlgebraTrait.MultiplyElementByBasisElement | ext/crates/algebra/src/algebra/algebra_trait.rs:87-111 | the mirror image: adds the sum over the non-zero `r[j]` of `((coeff * r[j]) mod p) * (b_j * s)` into the window and nothing elsewhere; a zero `r` leaves `result` unchanged |
| AlgebraTrait.MultiplyElementByElement | ext/crates/algebra/src/algebra/algebra_trait.rs:113-137 | adds the double sum over `i`, `j` of `coeff * s[i] * r[j] * (b_j * b_i)` modulo p into the window and nothing elsewhere, although each round passes down only the reduced coefficient `(coeff * s[i]) mod p`; a zero `s` leaves `result` unchanged |
| AlgebraTrait.BasisTimesZero | ext/crates/algebra/src/algebra/algebra_trait.rs:75-84 | a zero general operand contributes the zero vector to the basis-by-element product |
| AlgebraTrait.ElementTimesZeroBasis | ext/crates/algebra/src/algebra/algebra_trait.rs:101-110 | a zero general operand contributes the zero vector to the element-by-basis product |
| AlgebraTrait.ElementTimesZero | ext/crates/algebra/src/algebra/algebra_trait.rs:127-136 | a zero right factor contributes the zero vector to the element-by-element product |
| AlgebraTrait.ElementTimesBasisScales | ext/crates/algebra/src/algebra/algebra_trait.rs:126-136 | the coefficient passed to the element-by-basis product factors out of it, which is how each round of the element-by-element loop adds `coeff * s[i]` times a column |
| AlgebraTrait.ElementTimesBasisLinear | ext/crates/algebra/src/algebra/algebra_trait.rs:100-110 | the element-by-basis product of `a * r1 + b * r2` is `a` times that of `r1` plus `b` times that of `r2` |
| AlgebraTrait.ElementTimesElementLinearLeft | ext/crates/algebra/src/algebra/algebra_trait.rs:113-137 | the product of two elements is linear in the left factor |
| AlgebraTrait.ElementTimesElementLinearRight | ext/crates/algebra/src/algebra/algebra_trait.rs:113-137 | the product of two elements is linear in the right factor |
| AlgebraTrait.ElementTimesBasisCongruent | ext/crates/algebra/src/algebra/algebra_trait.rs:100-110 | replacing the general operand by one congruent to it modulo p gives a congruent product |
| AlgebraTrait.ElementTimesElementCongruent | ext/crates/algebra/src/algebra/algebra_trait.rs:126-136 | replacing either factor by a congruent one gives a congruent product, so the product is well defined on F_p vectors |
| AlgebraTrait.BilinearModP | ext/crates/algebra/src/algebra/algebra_trait.rs:113-137 | the element-by-element product is bilinear over F_p: `(a r1 + b r2) * s` is congruent to `a (r1 * s) + b (r2 * s)`, and likewise on the right |
| AlgebraTrait.UnitTimesBasis | ext/crates/algebra/src/algebra/algebra_trait.rs:87-111 | the element-by-basis product of the unit vector at `ri` is the single basis product `(rd, ri) * (sd, si)` |
| AlgebraTrait.BasisTimesElementIsUnitProduct | ext/crates/algebra/src/algebra/algebra_trait.rs:61-85 | the basis-by-element product equals the element-by-element product with the basis element written as a unit vector |
| AlgebraTrait.ElementTimesBasisIsUnitProduct | ext/crates/algebra/src/algebra/algebra_trait.rs:87-111 | the element-by-basis product equals the element-by-element product with the basis element written as a unit vector |
| AlgebraTrait.UnitColumn | ext/crates/algebra/src/algebra/algebra_trait.rs:126-136 | multiplying by the unit vector at `si` on the right keeps only column `si` |
| AlgebraTrait.NonzeroIndices | ext/crates/algebra/src/algebra/algebra_trait.rs:157 | `iter_nonzero` visits only indices of non-zero entries, in increasing order |
| AlgebraTrait.NonzeroIndicesComplete | ext/crates/algebra/src/algebra/algebra_trait.rs:157 | `iter_nonzero` skips no non-zero entry |
| AlgebraTrait.Term | ext/crates/algebra/src/algebra/algebra_trait.rs:159-163 | a term is the basis element's name, with the prefix `v * ` exactly when `v` is not 1 |
| AlgebraTrait.TermsInIndexOrder | ext/crates/algebra/src/algebra/algebra_trait.rs:157-164 | the `k`-th rendered term is the term of the `k`-th non-zero entry, with its value and its basis element's name |
| AlgebraTrait.TermsStep | ext/crates/algebra/src/algebra/algebra_trait.rs:157-164 | a zero entry adds no term; a non-zero entry adds its term and ` + ` at the end |
| AlgebraTrait.ElementToString | ext/crates/algebra/src/algebra/algebra_trait.rs:153-174 | the result is `"0"` when no entry is non-zero, and otherwise the terms joined by `" + "` |
| AlgebraTrait.DropTrailingSeparator | ext/crates/algebra/src/algebra/algebra_trait.rs:165-172 | the three pops remove exactly the trailing `" + "`; they never run on empty text |
| AlgebraTrait.ElementStringZero | ext/crates/algebra/src/algebra/algebra_trait.rs:155-172 | a zero element renders as `"0"`; when no basis element is itself named `"0"`, only a zero element does |
| AlgebraTrait.TermsEmpty | ext/crates/algebra/src/algebra/algebra_trait.rs:156-158 | there are no terms exactly when every entry is zero, which is what the `zero` flag records |
| AlgebraTrait.ElementStringTerms | ext/crates/algebra/src/algebra/algebra_trait.rs:165-172 | a non-zero element renders as at least one term, joined by `" + "` |
| AlgebraTrait.FactorSum | ext/crates/algebra/src/algebra/algebra_trait.rs:227-231 | the sum `sum_i c_i A_i B_i` of a decomposition lies in the degree of `A` |
| AlgebraTrait.DecomposeBasisElement | ext/crates/algebra/src/algebra/algebra_trait.rs:225-242 | for a basis element `A` of positive degree that is not one of the `generators` of its degree, every `A_i` and `B_i` has degree strictly below that of `A`, their degrees add up to it, and the sum of `c_i A_i B_i` is congruent to `A` modulo p |
| AlgebraTrait.PolynomialAlgebraValid | ext/crates/algebra/src/algebra/algebra_trait.rs:195-242 | the contract is met by an algebra whose degrees 0 and 1 are not empty (F_2[x], with `x` its one generator) and which decomposes every basis element above degree 1 |
| AlgebraTrait.GeneratorToString | ext/crates/algebra/src/algebra/algebra_trait.rs:205-216 | by default a generator is named as the basis element it is |
| Utils.AlgebraTypeName | ext/src/utils.rs:109-110 | the names of the algebra types are not empty and hold no `@` |
| Utils.ParseAlgebraType | ext/src/utils.rs:53-57 | an algebra type is read only from its own name |
| Utils.ParseAlgebraTypeName | ext/src/utils.rs:53-57 | every algebra type is read back from its name |
| Utils.ShiftedGens | ext/src/utils.rs:38-42 | shifting keeps the same generators and raises each degree by exactly the shift |
| Utils.ShiftedGensCompose | ext/src/utils.rs:38-42 | a shift by 0 changes nothing, and two shifts add up |
| Utils.ShiftGens | ext/src/utils.rs:38-42 | the loop over the `gens` entries raises every degree by the shift and keeps the keys, whatever order it visits them in |
| Utils.ModuleFromName | ext/src/utils.rs:26-45 | the file is the name up to its first `[`; the result is the load error naming that file exactly when it cannot be loaded; a name without `[` gives the loaded module unchanged; the panic on a non-object module arises only with a shift; a shifted object keeps its other members, and a `gens` object keeps its keys |
| Utils.ParseModuleName | ext/src/utils.rs:26-45 | the method that shifts the loaded module in place returns what the specification of `parse_module_name` gives, errors included |
| Utils.SplitAround | ext/src/utils.rs:27-31 | in `a[b` with no `[` in `a`, the file name is `a` and the shift text is the piece of `b` before its next `[` |
| Utils.ShiftModule | ext/src/utils.rs:38-42 | indexing `gens` mutably makes a `null` module `{"gens": null}`, inserts `"gens": null` into an object without one and panics on any other value; only a `gens` object has its degrees raised, and the other members are kept |
| Utils.ShiftModuleCompose | ext/src/utils.rs:38-42 | a shift by 0 leaves a module unchanged exactly when it is an object that has a `gens` member; two successful shifts add up |
| Utils.ModuleFromPlainName | ext/src/utils.rs:27-31 | a name without `[` loads that file and leaves the module as it is |
| Utils.ModuleFromShiftedName | ext/src/utils.rs:26-45 | `file[k]`, for every 64-bit `k`, loads `file` and shifts the module by exactly `k`, as `ShiftModule` states |
| Utils.ShiftedNamePieces | ext/src/utils.rs:27-31 | `file[k]` splits into the file name and the shift text `k]` |
| Utils.ModuleFromBadShift | ext/src/utils.rs:31-37 | a shift without the closing `]` is the unterminated-shift error; one that is not an integer is an error naming the text |
| Utils.ModuleFromMissingFile | ext/src/utils.rs:27-30 | a file that is missing or holds invalid JSON is an error naming the file, whatever follows it |
| Utils.WithAlgebra | ext/src/utils.rs:60-64 | a configuration built from a name and an algebra carries that algebra |
| Utils.ConfigFromSpec | ext/src/utils.rs:50-65 | a configuration read from `name@x` carries the module read from `name`, the Milnor algebra when there is no `@`, and otherwise the algebra whose name is `x`; an invalid-algebra error only arises after an `@` and names text that is no algebra's name |
| Utils.ConfigFromSpecDefault | ext/src/utils.rs:50-65 | a specification without `@` is a module name over the Milnor basis |
| Utils.ConfigFromSpecWithAlgebra | ext/src/utils.rs:50-65 | `name@x` is the module `name` over the algebra named `x`, or an invalid-algebra error naming `x` when `x` names none |
| Utils.ConfigFromNameAndAlgebra | ext/src/utils.rs:75-88 | a configuration read from `(name, algebra)` carries the given algebra; an algebra-mismatch error only arises for a name holding `@` that does not end with the algebra's name, and a cut inside a character only for a name holding `@`; a name without `@` is used as it is |
| Utils.TrimAlgebraName | ext/src/utils.rs:77-82 | a name without `@` is kept whole; otherwise the only errors are the algebra mismatch, for a name that does not end with the algebra's name, and the cut inside a character |
| Utils.ToAlgebraType | ext/src/utils.rs:76 | an algebra type converts to itself, and a name converts only to the type with that name |
| Utils.NameAndAlgebraPlain | ext/src/utils.rs:75-88 | a name without `@` is used as it is, whether the algebra is given as a type or by name |
| Utils.NameAndAlgebraSuffix | ext/src/utils.rs:77-79 | a name holding `@` that ends with one character and the algebra's name loses exactly that character and the algebra's name when the character is ASCII; a non-ASCII character there makes the byte slice end inside it, which is the `CutInsideCharacter` error |
| Utils.NameAndAlgebraMismatch | ext/src/utils.rs:77-82 | a name holding `@` that does not end with the algebra's name is an algebra-mismatch error |
| Utils.SpecFormsAgree | ext/src/utils.rs:47-88 | for a module name without `@`, `(name@a, a)` and `name@a` read as the same configuration |
| Utils.AsciiNum | ext/src/utils.rs:194-208 | the glyph is blank exactly for 0 and `*` exactly for 10 and above |
| Utils.AsciiNumDistinct | ext/src/utils.rs:194-208 | each count below 10 has a glyph no other count has |
| Utils.PrintElement | ext/src/utils.rs:294-308 | the loop with the `first` flag writes the terms of the non-zero entries in index order, separated by `" + "` |
| Utils.WriteTerm | ext/src/utils.rs:299-305 | one round writes ` + ` unless it is the first term, then `v ` unless `v` is 1, then `x_(n, s, i)` |
| Utils.PrintTermsStep | ext/src/utils.rs:297-307 | a zero entry writes nothing, and a non-zero entry adds one term to what was written |
| Utils.PrintedElementEmpty | ext/src/utils.rs:294-308 | nothing is written exactly when every entry is zero |
| Utils.PrintTermsNonEmpty | ext/src/utils.rs:298-306 | no term is empty, and there are terms exactly when some entry is non-zero |
| Utils.PrintedElementExample | ext/src/utils.rs:294-295 | `[0, 2, 1]` is written as `2 x_(n, s, 1) + x_(n, s, 2)` |
| Scheduler.UnlockedExactly | ext/src/utils.rs:348-356 | after `f(s, t)` returns `[a, T)`, the level-`s+1` calls are exactly the `t'` with `a + 1 <= t' < min(T + 1, max_t(s + 1))`, each once, and there are none unless `s + 1 < max_s` |
| Scheduler.EmptyRangeUnlocksNothing | ext/src/utils.rs:349-352 | a call whose range is empty unlocks nothing |
| Scheduler.Run | ext/src/utils.rs:339-360 | `run` calls `f` once at its bidegree and hands out exactly the unlocked bidegrees, after moving the start up by one and capping the end |
| Scheduler.BootstrapExactly | ext/src/utils.rs:362-373 | the first calls are each `(min_s, t)` with `min_t <= t < max_t(min_s)` and each `(s, min_t)` with `min_s < s < max_s`, once each |
| Scheduler.BootstrapPlaced | ext/src/utils.rs:362-373 | every first call is in bounds and needs nothing computed before it |
| Scheduler.UnlockedFacts | ext/src/utils.rs:311-315 | given `f`'s documented return contract, every unlocked `(s + 1, t')` is in bounds and has the row `s` computed for every degree in `[min_t, t')` |
| Scheduler.LoadDrops | ext/src/utils.rs:348-356 | each call lowers the pool's load, since levels stop below `max_s` and each level unlocks fewer than `max_t(s) - min_t` bidegrees at once |
| Scheduler.IterST | ext/src/utils.rs:310-375 | the worklist terminates; every call is in bounds (`s >= min_s` and `t >= min_t`, `s < max_s` above the first row, and `t < max_t(s)` except in the first column); every call at `s + 1 > min_s` happens after `f(s, t'')` has run for every `t''` in `[min_t, t')`; each call returns what `f` reports; the calls made are exactly the bootstrap plus what the calls unlocked, with multiplicity |
| Scheduler.ProgressStep | ext/src/utils.rs:339-360 | one call keeps every promise of the trace and the pool, and lowers the load |
| Scheduler.PoolStep | ext/src/utils.rs:348-356 | after one call, what is left of the pool and what that call unlocked are all in bounds and ready |
| Scheduler.TraceStep | ext/src/utils.rs:311-315 | a call made once it is ready, returning what `f` reports, extends a sound trace to a sound trace |
| Scheduler.CountStep | ext/src/utils.rs:348-356 | one call moves its bidegree from the pool to the trace and adds what it unlocked, so the accounting stays exact |

## Left out

- `compute_basis`, `generators`, `string_to_generator`, `generating_relations`, `prime` and `dimension` of the traits have no default bodies. They are fields of the `Algebra` and `GeneratedAlgebra` values or are not modelled.
- `GeneratorToString`: `string_to_generator` is a parser whose grammar each algebra defines, so the law that `generator_to_string` is its inverse is not stated.
- The `JsonAlgebra` trait has no bodies. The `dispatch_algebra!` macro is code generation. Neither is modelled.
- Concrete algebras (the Milnor and Adem bases and their products) are not part of this model. Any product table of the right shape is allowed.
- `MultiplyBasisElements` stands for every concrete implementation. Its body is one implementation that meets the documented contract.
- u32 overflow of `coeff * v` is not modelled: coefficients are unbounded naturals. The result window's entries are assumed to lie in `[0, p)`, as every F_p vector's do.
- `ParseModuleName`: finding and reading the module's JSON file is the parameter `load`. A module's JSON is reduced to its kind (object, `null` or another value), its `gens` member and its other members as text.
- `ParseModuleName`: the `with_context` messages are reduced to the `Error` kinds. A file that is missing and one that holds invalid JSON are the same kind, `ModuleLoadFailed`.
- `ShiftModule`: the panic of `module["gens"]` on a module that is neither an object nor `null` is the error `IndexIntoNonObject`.
- `ParseModuleName`: a generator degree that is not an integer makes the source panic. The `i64` overflow of `degree + shift` panics where overflow checks are on, as in debug builds, and wraps around in release builds. The model has unbounded degrees and captures neither.
- `ParseModuleName`: text after a second `[` is ignored, as in the source. The model splits on characters, whereas Rust slices bytes. `[` and `]` are one byte each in UTF-8, so every cut falls on a character boundary and the two agree on every name.
- `ConfigFromSpec`: text after a second `@` is ignored, as in the source.
- `ParseAlgebraType`: the `FromStr` and `Display` implementations of `AlgebraType` are not part of this model. The names `milnor` and `adem` are taken from the documentation at ext/src/utils.rs:108-110.
- `NameAndAlgebraSuffix`: the source never checks that the character it drops before the algebra's name is `@`. So `(S_2@x_milnor, milnor)` reads as the module `S_2@x`; the lemma states this behaviour as written.
- `NameAndAlgebraSuffix`: when that dropped character is not ASCII, the byte slice at ext/src/utils.rs:79 ends inside it and the source panics. The model returns the error `CutInsideCharacter` in its place.
- `DecomposeBasisElement`: the documentation at ext/crates/algebra/src/algebra/algebra_trait.rs:227-231 promises a decomposition of every basis element. A generator, and the unit in degree 0, have none into factors of strictly smaller degree, so the contract asks for one only for basis elements of positive degree that are not among the `generators` of their degree.
- `construct`, `load_module_json`, `print_resolution_color`, `query_module_only` and `query_module` are left out. They are foreign calls, filesystem access and terminal I/O.
- The `TryFrom<(Value, T)>` conversion is left out. It only pairs a given JSON value with an algebra.
- `PrintElement`: what is written to standard output is returned as a string instead.
- `IterST`: the rayon parallelism is left out. A sequential worklist that takes any pending bidegree at each step stands for every order the parallel version may run in, but not for simultaneous calls.
- `IterST`: `f` is a function of the set of bidegrees computed so far. Its writes into shared storage are not modelled.
- `IterST`: at-most-once scheduling of a bidegree is not claimed. It holds only when `f` reports disjoint ranges, which `iter_s_t` itself does not ensure.
- `IterST`: coverage of the whole grid is not proved. It too depends on what ranges `f` reports.
- `IterST`: the i32/u32 overflow of `s + 1` and `ret.end + 1` is not modelled.
- `ElementStringZero`: the direction "renders as `0` only if zero" assumes that no basis element of that degree is itself named `0`. A basis named `0` would make a non-zero element render as `0`.
