# QMath in Dafny

QMath is a small computer-algebra engine. It parses an infix string into an
expression tree, with implicit multiplication, function names and
parentheses. It then differentiates, simplifies, substitutes values into,
evaluates, compares and prints that tree. This project models the engine's
whole core, `QMath.cpp` and the class hierarchy of `QMath.h`, in Dafny and
proves properties of that model.

The modules follow the engine's structure:

- `Expressions` (`expr.dfy`) holds the thirteen node variants as one
  datatype `Expr`.
  - A Variable or Constant carries its bound value. A Log carries the flags
    its constructor derives from the base. A Differential carries its order,
    an `unsigned char` that is 1 unless it is given.
  - The module also holds the classification queries: `isConstant`,
    `isAtomic`, `precedence` and `isCommutative`.
  - It also holds structural equality (`operator==`) and `evaluate`. The
    floating-point primitives are an uninterpreted table `Arith`.
  - A Log that is neither natural nor base 10 divides the natural
    logarithms of its argument and base.
- `Calculus` (`calculus.dfy`) holds `copyTree`, the Log constructor and
  `differentiate`.
  - All three are built exactly as the source builds them. That includes
    the general Exponent rule (ln of the exponent, divided by its
    derivative), Log's tests against the default variable `'x'`, and the
    order bump of a Differential modulo 256.
  - Copying a tree re-runs the Constant and Log constructors. A copy of a
    Constant `'e'` is therefore rebound to Euler's number.
- `Simplification` (`simplify.dfy`) holds `simplify` with `factoriseLinear`
  and `accumulateExponentIndicies`.
  - Its outcome is a `Result`. A tree that would have to evaluate a
    Differential fails with `UnresolvedDerivative`, where the engine throws.
  - The search loop of `factoriseLinear` is a method proved against the
    function that specifies it.
- `Substitution` (`substitute.dfy`) holds `substitute`, in its map form and
  its single-name form.
- `Printer` (`printer.dfy`) holds `toString`. A product of two atomic
  operands whose right side alone is constant prints constant-first and
  swaps its stored operands. `Print` therefore returns the text together
  with the tree as printing leaves it.
- `Scanning` (`scanning.dfy`) holds the string passes of the parser:
  - the split table;
  - `cleanseParseInput`;
  - `determineScopeDepth`;
  - the two rectification passes that insert implicit `*`.

  Each loop the source runs is a method whose `ensures` ties it to the
  function that specifies it (`CleanseInput`, `DetermineScopeDepth`,
  `RectifyOpenings`, `RectifyClosings`).
- `Numerals` (`numbers.dfy`) holds `isNumber`: whether the C library's
  `strtold` reads the whole string as one number, in the "C" locale.
- `Parsing` (`parser.dfy`) holds `parse`, `parseBaseCase`, `parseOperator`
  and `parseFunction`, with their table search and scope scan as methods.
  - The value `std::stod` reads from a numeric literal is a parameter,
    `read`.
  - The empty operand, on which the engine recurses forever, becomes an
    explicit error. So does a function whose parenthesis never closes, past
    whose end the engine reads.
- `Cases` (`cases.dfy`) works the whole parser through concrete inputs:
  - the desugaring of `sec`, `sinc` and `cosec`;
  - a tree that a second simplification changes;
  - a printed tree that parses back as a different tree.

The model reproduces these behaviours of the code as they are:

- `a-b-c` parses as `a-(b-c)`.
- `x y` with no operator parses as the product of its characters, `xy`
  giving `x * y`.
- With rectification on, `cosec(x)` becomes `co*sec(x)`, because the later
  table match `sec` fixes where the `*` goes. It parses as `(c * o) * cos(x) ^ -1`.
  Without rectification it is `sin(x) ^ -1`.
- Cleansing an unbalanced string still strips its first and last
  characters: `(x+1` cleanses to `x+`.
- A function split drops the text around the function.
- Rectification lets a later table match overwrite the insertion offset.
- Its second pass is bounded by the length of the input as given.
- The scope depth is truncated to 8 bits.
- Divide's zero and one rules evaluate the denominator even when it is not
  constant. A constant over an unbound Variable therefore simplifies to 0.
- Exponent's rules look at the operands before they are simplified. So a
  second simplification can change a tree further: `x ^ (y - y)` gives
  `x ^ 0`, and that gives `1`.
- Add prints no parentheses around its operands.
- A sum counts as commutative, so on the right of a difference it is printed
  bare: `a - (b + c)` prints as `a - b + c`. A power on the left of a power
  prints bare too: `(a^b)^c` prints as `a^b^c`.
- Printed text does not always parse back to the tree printed: `(x - y) - z`
  prints as `x - y - z`, which parses as `x - (y - z)`.
- Variables with the same name and different bound values compare equal:
  `operator==` compares only the names (QMath.cpp:866-875).
- A Constant is substituted like a Variable, so the Constant `e` can be
  substituted. Its constructor sets Euler's number (QMath.cpp:919-925), but
  `substitute` overwrites the value of any leaf whose name the map holds
  (QMath.cpp:908-914).

## Model

| member | source | states |
|---|---|---|
| Expressions.Binary | QMath.h:77-78 | the node built for one of the five table operators is that operator's variant and owns exactly the two given children |
| Expressions.Equal | QMath.cpp:285-296 | equal trees name the same characters and have the same size |
| Expressions.AtomicNodes | QMath.cpp:528-536 | leaves and functions are atomic; an atomic operator node is a product and never constant (also 29, 861, 906, 951) |
| Expressions.PrecedenceLevels | QMath.cpp:462-1035 | precedence 0 is exactly the leaves; sums and differences are 1; products, quotients and the Differential 2; powers 3; sin, cos and tan 4; Log 10 (also 863, 916) |
| Expressions.CommutativeOperators | QMath.cpp:33 | among the operator nodes exactly sums and products are commutative; every other node keeps the default of true (also 514, 666, 746, 828, 1033) |
| Expressions.ConstantsNameNothing | QMath.cpp:316 | a tree is constant exactly when it names no Variable and no Constant (also 844, 879, 949) |
| Expressions.EqualReflexive | QMath.cpp:285-296 | every tree is equal to itself |
| Expressions.EqualSymmetric | QMath.cpp:285-296 | structural equality is symmetric, across every variant |
| Expressions.EqualTransitive | QMath.cpp:285-296 | structural equality is transitive, commutative matches included |
| Expressions.EqualOperators | QMath.cpp:285-296 | two operator nodes of one variant are equal exactly when their children are equal in order, or crosswise when the operator is commutative |
| Expressions.EqualSameVariant | QMath.cpp:288 | equal trees are of the identical variant |
| Expressions.SwappedOperands | QMath.cpp:285-296 | a sum and a product equal their swapped forms; a difference, quotient or power equals its swapped form only when both children are equal each way |
| Expressions.EqualIgnoresBindings | QMath.cpp:866-875 | Variables, and Constants, of one name are equal whatever their bound values; a Variable never equals a Constant of the same name |
| Expressions.EqualIgnoresAnnotations | QMath.cpp:285-296 | a Differential's order and a Log's flags take no part in equality |
| Expressions.EqualConstness | QMath.cpp:316 | equal trees agree on isConstant |
| Expressions.EvalFailsOnDifferential | QMath.cpp:775-780 | evaluation fails exactly when it reaches a Differential, the base of a flagged Log not being evaluated |
| Expressions.ConstantsEvaluate | QMath.cpp:316 | a well-formed constant tree, holding no Variable, always has a value |
| Expressions.DerivativeFreeEvaluates | QMath.cpp:1016 | a tree without a Differential is well formed and always has a value |
| Calculus.Copy | QMath.cpp:418 | copying keeps the size of the tree |
| Calculus.CopyIsCanonical | QMath.cpp:919-931 | a copy's every Constant holds what its constructor gives it and every Log the flags its constructor derives |
| Calculus.CopyOfCanonical | QMath.cpp:773 | copying a tree that is already canonical gives the same tree |
| Calculus.CopyIdempotent | QMath.cpp:931 | copying a copy changes nothing further |
| Calculus.CopyEqual | QMath.cpp:931 | a copy is structurally equal to its original |
| Calculus.CopyShape | QMath.cpp:418 | a copy keeps constness and the names of the leaves; it keeps well-formedness and the absence of Differentials |
| Calculus.MkLog | QMath.cpp:749-758 | the Log constructor keeps base and argument, and a natural Log is never also flagged base 10 |
| Calculus.LogFlagsOfParsedBases | QMath.cpp:749-758 | a Log of base e is natural and not base 10, and a Log of base 10 is base 10 and not natural |
| Calculus.LogOfVariableBase | QMath.cpp:749-758 | a Log whose base is a Variable carries neither flag |
| Calculus.DifferentiateLeaves | QMath.cpp:848 | a Number and a Constant differentiate to 0; a Variable gives 1 for its own name and otherwise a first-order marker pairing it with the differentiation variable (QMath.cpp:889-893, 929) |
| Calculus.DifferentiateMarker | QMath.cpp:1018-1031 | a marker differentiated by its own variable has its order bumped mod 256; by another variable it becomes the bumped marker times a new first-order marker |
| Calculus.DifferentiateArithmetic | QMath.cpp:521-526 | on operands that copy to themselves, d(u * v) is u * dv + du * v, d(u / v) is (du * v - u * dv) / v ^ 2, and sums and differences differentiate childwise (also 416, 468, 614-621) |
| Calculus.DifferentiateWellFormed | QMath.cpp:416-1031 | differentiation keeps every Differential's denominator a Variable |
| Calculus.LnWellFormed | QMath.cpp:749-758 | the natural-log node introduces only the name e and keeps well-formedness |
| Calculus.DifferentiateSymbols | QMath.cpp:416-1031 | a derivative names only the tree's own names, the differentiation variable, x and e |
| Simplification.FirstMatch | QMath.cpp:352-373 | the first index from the start position whose operand is Equal to the given tree, no earlier index matching |
| Simplification.SharedFactorFrom | QMath.cpp:352-373 | the first Equal pair in the order of the nested i and j loops, or none exactly when no pair is Equal |
| Simplification.FindSharedFactor | QMath.cpp:352-373 | the nested search loop of factoriseLinear returns the first Equal pair of operands |
| Simplification.SimplifyPreserves | QMath.cpp:427-825 | simplification introduces no name, keeps well-formed trees well formed and Differential-free trees Differential-free, and never hits an unresolved derivative on a Differential-free tree |
| Simplification.SimplifyFoldsConstants | QMath.cpp:429-430 | a sum, difference, product, quotient or power of constant operands folds to the Number of its value (also 481, 560, 633, 727) |
| Simplification.SimplifyFoldsConstantLog | QMath.cpp:807 | a constant Log folds to the Number of its value |
| Simplification.SimplifyOperator | QMath.cpp:430-459 | an operator with a non-constant operand simplifies both operands and applies its own rule to them |
| Simplification.SimplifyEqualOperands | QMath.cpp:446-453 | for equal non-constant simplified sides, x - x is 0, x / x is 1, x * x is x ^ 2, and x + x is simplify(2 * x) (also 498-503, 594-598, 650-655) |
| Simplification.SimplifyZeroOperand | QMath.cpp:435-444 | next to a side that is not constant, a constant 0 vanishes from a sum and from the right of a difference, 0 - x is -1 * x, and a product with a 0 is 0 (also 487-496, 565-586) |
| Simplification.SimplifyUnitFactor | QMath.cpp:573-590 | a constant 1 next to a non-constant side is dropped from a product, on either side |
| Simplification.QuotientByUnboundVariable | QMath.cpp:639-644 | a Number over an unbound Variable simplifies to 0, because the zero rule evaluates the denominator |
| Simplification.SimplifyPowerRules | QMath.cpp:730-739 | with non-constant other sides, 0 ^ n is 0, 1 ^ n is 1, b ^ 0 is 1 and b ^ 1 is the simplified base |
| Simplification.EqualCopies | QMath.cpp:418 | copies compare as their originals do |
| Simplification.FactoriseLeadingFactor | QMath.cpp:343-380 | (f * a) op (f * b) is refactored into simplify(simplify(a op b) * f) |
| Simplification.FactoriseTrailingFactor | QMath.cpp:343-380 | (a * f) op (b * f) is refactored around f when no earlier pair of the scan is Equal |
| Simplification.FactoriseRecombines | QMath.cpp:379 | two sides neither of which is a product are recombined unchanged |
| Simplification.AccumulatePowersOfBases | QMath.cpp:382-411 | powers of Equal bases combine their indices with the second operator and are re-simplified; powers of other bases are recombined with the first |
| Simplification.AccumulateFirstPower | QMath.cpp:387-388 | a side that is not a power counts as its own first power |
| Simplification.AccumulateRecombines | QMath.cpp:410 | two sides neither of which is a power are recombined unchanged |
| Substitution.Substitute | QMath.cpp:318-322 | substitution changes only bindings: forgetting every binding, the result is the original |
| Substitution.SubstituteOne | QMath.cpp:35-40 | after substituting v for c, every leaf named c carries exactly v, and every other name keeps its values |
| Substitution.SubstituteValues | QMath.cpp:908-914 | every name the map holds carries exactly its mapped value wherever it occurs; every other name keeps its values |
| Substitution.ShapeDecides | QMath.cpp:866-875 | trees of one shape agree on their names, constness, atomicity, well-formedness and freedom from Differentials, and are structurally equal |
| Substitution.SubstituteKeepsShape | QMath.cpp:318-322 | a substituted tree has the same names, constness, atomicity and well-formedness as the original, and equals it |
| Substitution.SubstituteUnnamed | QMath.cpp:908-914 | a map naming none of the tree's leaves leaves the tree as it is |
| Substitution.SubstituteOverride | QMath.cpp:908-914 | substituting one map and then another is substituting their union, the later one winning |
| Substitution.SubstituteIdempotent | QMath.cpp:908-914 | substituting the same map twice is substituting it once |
| Substitution.SubstituteForgets | QMath.cpp:908-914 | once every name is substituted, trees of one shape become the same tree |
| Substitution.SubstituteRebindsEuler | QMath.cpp:919-925 | the Constant e starts at Euler's number, but substitution overwrites it like any Variable |
| Printer.Decimal | QMath.cpp:1040 | an order prints as a non-empty run of decimal digits |
| Printer.DecimalRoundTrip | QMath.cpp:1040 | reading back the printed digits of an order gives the order |
| Printer.PrintGroups | QMath.cpp:420-1049 | outside products, the parentheses flag brackets a sum, difference, quotient, power or derivative and nothing else, and does not change the tree left behind |
| Printer.PrintDifference | QMath.cpp:298-314 | in a difference the left operand is never bracketed and the right one exactly when it is a difference, so a sum on the right prints bare (also 470-477) |
| Printer.PrintQuotient | QMath.cpp:298-314 | in a quotient a sum or difference on either side is bracketed, and a quotient or derivative on the right; products never are (also 623-630) |
| Printer.PrintPower | QMath.cpp:298-314 | in a power every operator operand but a logarithm is bracketed, except a power on the left; product operands print in their bracketed form (also 717-722) |
| Printer.PrintKeepsVariant | QMath.cpp:538-556 | printing keeps every node's variant and the constness of the tree |
| Printer.PrintKeepsEqual | QMath.cpp:546-548 | the tree left by printing is structurally equal to the tree printed |
| Printer.PrintSettled | QMath.cpp:538-556 | printing a tree with no product to swap leaves it exactly as it is |
| Printer.PrintSettles | QMath.cpp:546-548 | the tree left by printing has no product left to swap |
| Printer.PrintKeepsParentheses | QMath.cpp:307-314 | the node left by printing an operator gets the same parentheses for its children |
| Printer.AtomicIgnoresParentheses | QMath.cpp:852-902 | a settled atomic tree prints the same with and without parentheses |
| Printer.PrintStable | QMath.cpp:420-1049 | printing the tree a print left behind gives the same text and the same tree again |
| Printer.PrintConstantFirst | QMath.cpp:544-549 | a Variable times a Number prints the number first, juxtaposed, and the stored operands are swapped |
| Printer.PrintNestedDifference | QMath.cpp:470-477 | a difference on the right of a difference is parenthesised |
| Printer.PrintSumsFlat | QMath.cpp:420-425 | a sum never parenthesises its operands, so both groupings of a sum of three print alike |
| Printer.PrintSecondDerivative | QMath.cpp:1037-1049 | a second derivative prints its order after both d's |
| Scanning.OperatorCharacters | QMath.cpp:47-62 | the first characters of the table's operator entries are exactly + - * / ^ |
| Scanning.FunctionEntries | QMath.cpp:52-62 | the eleven function names in the order the table holds them |
| Scanning.TableNames | QMath.cpp:47-62 | every table name is a single operator character, ln, or at least three characters long |
| Scanning.StripSpacesAppend | QMath.cpp:237-239 | erasing whitespace distributes over concatenation |
| Scanning.StripSpacesCharacter | QMath.cpp:237-239 | erasing whitespace drops a single whitespace character and keeps any other |
| Scanning.StripSpacesKeeps | QMath.cpp:237-239 | a string without whitespace is left as it is |
| Scanning.ReducibleMeaning | QMath.cpp:241-264 | the peeling loop strips a string exactly when it starts with a parenthesis and no later position but the end returns to depth 0 |
| Scanning.CleanseUnbalanced | QMath.cpp:241-264 | an unbalanced (x+1 is still stripped at both ends, to x+ |
| Scanning.CleanseUnbracketed | QMath.cpp:241-264 | a string without whitespace that does not start with a parenthesis is already cleansed |
| Scanning.CleanseIdempotent | QMath.cpp:235-266 | cleansing a cleansed string changes nothing |
| Scanning.CleanseRemovesSpaces | QMath.cpp:235-266 | a cleansed string holds no whitespace |
| Scanning.CleanseChars | QMath.cpp:235-266 | cleansing introduces no character |
| Scanning.CleanseWithoutParentheses | QMath.cpp:241-264 | without parentheses, cleansing only strips whitespace |
| Scanning.CleanseInput | QMath.cpp:235-266 | the cleansing loops compute the cleansed string |
| Scanning.DetermineScopeDepth | QMath.cpp:268-277 | the counting loop returns the count of ( minus ) before the position, modulo 256 |
| Scanning.DepthAppend | QMath.cpp:268-277 | the depth after a prefix and then part of the rest is the sum of the two depths |
| Scanning.DepthOfOpenings | QMath.cpp:268-277 | after n opening parentheses, the depth is n |
| Scanning.PrefixDepth | QMath.cpp:268-277 | the depth at a position depends only on the text before it |
| Scanning.DepthWrapsAt256 | QMath.cpp:268 | a scope 256 parentheses deep reads as depth 0 |
| Scanning.ScanBehindMeaning | QMath.cpp:74-106 | the table scan finds an operator exactly when some entry blocks the insertion, and otherwise yields the offset of the last matching name |
| Scanning.OpenStepKeeps | QMath.cpp:66-119 | the first pass leaves a position alone unless it holds a ( after a character other than (, and whenever an operator blocks |
| Scanning.OpenStepInsertsBefore | QMath.cpp:107-117 | a ( after no table name and no ( gets a * right before it |
| Scanning.OpenStepInsertsBeforeName | QMath.cpp:89-117 | a ( after a function name that no operator precedes gets its * before the last matching name, unless that name starts the string or follows a ( |
| Scanning.OpenStepAway | QMath.cpp:68 | the first pass leaves a position that holds no ( alone |
| Scanning.Unmatched | QMath.cpp:74-106 | a table name one of whose characters the string lacks matches nowhere in it |
| Scanning.OpenPassKeeps | QMath.cpp:66-119 | a first pass all of whose steps keep the string keeps it |
| Scanning.OpenPassAt | QMath.cpp:66-119 | with no ( past position i, the whole first pass is the pass at i-1 over what the step at i makes |
| Scanning.ClosePassKeeps | QMath.cpp:121-140 | the second pass keeps a string with no ) before its last position |
| Scanning.RectifyKeeps | QMath.cpp:64-141 | a string whose first-pass steps all keep it and whose only ) is its last character is left as it is |
| Scanning.ClosePassSeparates | QMath.cpp:121-140 | after the second pass every ) before the bound is followed by ), by an operator or by nothing |
| Scanning.ClosePassStopsAtBound | QMath.cpp:124 | the second pass changes nothing at or past the bound taken from the input's length |
| Scanning.RectifySeparates | QMath.cpp:64-141 | after rectification every ) before the bound is separated from what follows |
| Scanning.EmbedsTransitive | QMath.cpp:64-141 | inserting stars in two rounds is inserting stars |
| Scanning.EmbedsChars | QMath.cpp:64-141 | inserting stars adds only the character *, and a result without * is the original |
| Scanning.RectifyInsertsStars | QMath.cpp:64-141 | rectification only ever inserts * characters |
| Scanning.RectifyChars | QMath.cpp:64-141 | rectification adds no character but * |
| Scanning.RectifyWithoutParentheses | QMath.cpp:64-141 | a string without parentheses is left unchanged by rectification |
| Scanning.FollowsOperator | QMath.cpp:92-102 | the loop over the operator entries finds one exactly when the character before the name is one of their first characters |
| Scanning.Lookbehind | QMath.cpp:74-106 | the loop over the table computes the table scan |
| Scanning.RectifyOpenings | QMath.cpp:66-119 | the backward loop computes the first pass |
| Scanning.OpenAt | QMath.cpp:68-118 | one step of the backward loop computes the first pass at one position |
| Scanning.RectifyClosings | QMath.cpp:121-140 | the forward loop computes the second pass, bounded by the given length |
| Numerals.SkipDigits | QMath.cpp:16-23 | the end of the digit run at a position: digits up to it, none at it |
| Numerals.DigitsAreNumbers | QMath.cpp:16-23 | a non-empty run of decimal digits is a number |
| Numerals.SingleCharacterNumbers | QMath.cpp:16-23 | a single character is a number exactly when it is a decimal digit |
| Numerals.NumbersHaveNoProducts | QMath.cpp:16-23 | no number holds *, / or ^ |
| Numerals.TwoLettersAreNoNumber | QMath.cpp:16-23 | no string of two letters is a number |
| Numerals.LetterStartsNoNumber | QMath.cpp:16-23 | a string starting with a letter other than i and n, the starts of inf and nan, is no number |
| Parsing.Find | QMath.cpp:149 | the first occurrence of a name from a position, none before it |
| Parsing.FindTopLevel | QMath.cpp:146-168 | the first occurrence of a name at scope depth 0, none before it |
| Parsing.FindTopLevelByOccurrences | QMath.cpp:149-150 | the top-level search visits exactly the occurrences, in order, skipping those inside parentheses |
| Parsing.Split | QMath.cpp:143-171 | the first table entry with a top-level occurrence, with that occurrence; no earlier entry has one |
| Parsing.FindTopLevelOccurrence | QMath.cpp:146-168 | the find loop returns the first top-level occurrence |
| Parsing.FindSplit | QMath.cpp:143-171 | the table loop returns the first entry with a top-level occurrence |
| Parsing.ScopeEnd | QMath.cpp:212-217 | one past the first character that closes the function's scope, no earlier position returning to depth 0; none when the scope never closes |
| Parsing.FindScopeEnd | QMath.cpp:212-217 | the do-while scan computes the end of the scope |
| Parsing.DesugarShape | QMath.cpp:221-231 | the function forms keep a parsed operand parsed, adding only the name e (for ln) |
| Parsing.BinaryShape | QMath.cpp:195-206 | an operator node of parsed operands is parsed and names what they name |
| Parsing.Parse | QMath.cpp:42-174 | every successful parse, rectifying by default (QMath.h:30), is Differential-free and canonical, and names only characters of the input plus `*` (which rectification inserts) and `e` (which ln introduces) |
| Parsing.ParseSplit | QMath.cpp:143-171 | splitting at the table gives a parsed tree of the string's characters |
| Parsing.ParseBaseCase | QMath.cpp:176-193 | a number parses as its Number, a single other character as its leaf, and the empty text fails with EmptyOperand; a success is parsed and names only the text's characters, `*` and `e` |
| Parsing.ParseBaseCaseProduct | QMath.cpp:186-191 | a longer text that is no number is the product of the parse of all but its last character with the parse of the last one, and fails exactly when either fails |
| Parsing.ParseOperator | QMath.cpp:195-206 | a success is parsed and names only characters of the two sides, `*` and `e` |
| Parsing.ParseOperatorJoins | QMath.cpp:195-206 | succeeds exactly when both sides parse, and is then the operator's node over the two parses; otherwise the left side's error, else the right side's |
| Parsing.ParseFunction | QMath.cpp:208-233 | a scope that never closes fails with UnbalancedParentheses; a success is parsed and names only characters of the text after the name, `*` and `e` |
| Parsing.ParseFunctionOperand | QMath.cpp:212-231 | with a closing scope, the result is the desugaring of the parse of the text up to the end of that scope, and fails exactly when that parse fails, with its error |
| Parsing.ParseFunctionUnclosed | QMath.cpp:212-217 | when every prefix of the text after the name has more openings than closings, the function fails with UnbalancedParentheses |
| Parsing.ScopeNeverEnds | QMath.cpp:212-217 | the scope scan finds no end when every prefix of the text is open |
| Parsing.ParseTrailingPlus | QMath.cpp:188 | a letter followed by a trailing `+` splits at the `+` and fails on its empty right operand with EmptyOperand |
| Parsing.ParseEmpty | QMath.cpp:188 | the empty input fails with EmptyOperand instead of recursing forever |
| Parsing.ParseCleansed | QMath.cpp:44 | parsing a cleansed string is parsing the original |
| Parsing.ParseRectifyWithoutParentheses | QMath.cpp:64-141 | without parentheses, rectification makes no difference to the parse |
| Parsing.ParseCharacter | QMath.cpp:176-193 | a single digit parses as a Number, e as the Constant e and any other character as a Variable |
| Parsing.FirstOccurrence | QMath.cpp:149-150 | without parentheses, the first occurrence of a one-character name is where the search stops |
| Parsing.SplitAtFirstOccurrence | QMath.cpp:143-171 | the split is at the first entry present in the string, at its first occurrence |
| Parsing.SumAndDifferenceEntries | QMath.cpp:47-62 | + is tried first and - second |
| Parsing.CleanseKeeps | QMath.cpp:235-266 | a string without whitespace and parentheses is already cleansed |
| Parsing.ParseSplitsAtOperator | QMath.cpp:143-171 | a string containing an operator splits at the first occurrence of the first operator present, and parses both sides |
| Parsing.LetterThenSymbol | QMath.cpp:16-23 | a letter followed by another character that is not a letter is not a number |
| Parsing.ParseLeadingDifference | QMath.cpp:149-158 | x - t, with no + in t, is a difference of x and the parse of t |
| Parsing.ParseDifference | QMath.cpp:149-158 | y-z parses as the difference of the two leaves |
| Parsing.ParseDifferenceChain | QMath.cpp:149-158 | x-y-z parses as x - (y - z), splitting at the leftmost minus |
| Parsing.ScopeEndPrefix | QMath.cpp:212-217 | the scope scan ends the same whatever follows the closing parenthesis |
| Parsing.ParseFunctionDropsRest | QMath.cpp:163-219 | the text after the operand's closing parenthesis takes no part in a function's parse |
| Parsing.SplitNowhere | QMath.cpp:143-171 | a string in which no table name occurs does not split |
| Parsing.SplitFirstFound | QMath.cpp:143-171 | the split is at the first top-level occurrence of the first entry that occurs at all |
| Parsing.Lacking | QMath.cpp:149 | a name one of whose characters the string lacks occurs nowhere in it |
| Parsing.ParseImplicitProduct | QMath.cpp:186-191 | two letters other than ln parse as the product of their leaves |
| Parsing.ParseParenthesised | QMath.cpp:44 | a single character in parentheses parses as the character alone |
| Parsing.ParseFunctionOfCharacter | QMath.cpp:208-231 | a function applied to a single character is the function's form of that character's leaf or Number |
| Parsing.ParsePrepared | QMath.cpp:44-141 | a cleansed string that is no number and that rectification keeps goes straight to the table loop |
| Cases.ParseSec | QMath.cpp:224 | sec(x) parses as cos(x) ^ -1, rectifying or not |
| Cases.ParseSinc | QMath.cpp:229 | sinc(x) parses as sin(x) / x, rectifying or not |
| Cases.CosecRectified | QMath.cpp:66-119 | rectification turns cosec(x) into co*sec(x), the later match sec fixing the insertion |
| Cases.ParseCosec | QMath.cpp:42-233 | with rectification, cosec(x) parses as (c * o) * cos(x) ^ -1 |
| Cases.ParseCosecUnrectified | QMath.cpp:225 | without rectification, cosec(x) parses as sin(x) ^ -1 |
| Cases.ParseUnclosedSine | QMath.cpp:208-217 | sin(x, whose parenthesis never closes, fails with UnbalancedParentheses |
| Cases.SimplifyNotIdempotent | QMath.cpp:727-739 | x ^ (y - y) simplifies to x ^ 0, which simplifies further to 1 (also 498-503) |
| Cases.PrintParseNotInverse | QMath.cpp:470-477 | (x - y) - z prints as x - y - z, which parses as x - (y - z), a tree not equal to it (also 149-158) |

## Left out

- Floating-point arithmetic is not modelled. Values are mathematical reals. Division, `std::pow`, `sin`, `cos`, `tan`, `log` and `log10` are the uninterpreted `Arith` table. Sum, difference and product are exact. Infinities and NaNs therefore have no counterpart. The `== M_E` test of the Log constructor compares with the literal `EULER`.
- The numeric value `std::stod` reads and Number's `stringstream` formatting are parameters (`read`, `show`), not models of the C++ library.
- Memory ownership is not modelled: `new`, `delete`, destructors and the reuse of operand pointers in `Differential::differentiate`, with its aliasing (QMath.cpp:1024-1028). Trees are values, and every copy is a fresh value.
- Printer.Print: the swap of a product's stored operands is modelled as the returned node rather than a change to a shared object. No aliasing of nodes is modelled.
- Substitution.Substitute: the engine assigns `value` in place. The model returns the updated tree.
- Simplification.Simplify: simplification is not idempotent, and the model states no idempotence; Cases.SimplifyNotIdempotent gives a tree that a second run changes.
- Printer.Print: printing is not inverse to parsing, and the model states no round trip; Cases.PrintParseNotInverse gives a tree whose text parses as another tree.
- Simplification.Simplify: the unbounded recursion of `simplify` is bounded by a fuel parameter, and running out of fuel is an error. That more fuel never changes a finished outcome is not proved.
- Parsing.ParseFunction: the engine reads past the end of the string when a function's parenthesis does not close. The model returns UnbalancedParentheses.
- Parsing.ParseBaseCase: the engine recurses forever on an empty operand, as in `x+` or `-x`. The model returns EmptyOperand.
- The `throw "Not implemented"` of `parseOperator` and `parseFunction` cannot be reached in the model, because its table of operators and functions is exhaustive. Evaluating a Differential is modelled as failure (`Eval` gives None) rather than a thrown string.
- Calculus.MkLog: the Log constructor (QMath.cpp:749-758) sets at most one of its two flags, and the other, declared without an initialiser (QMath.h:181-182), is left unset. The model sets that flag to false.
- Calculus.MkLog and differentiation read a test whose evaluation fails as false: the Log constructor's `== 10` and `== M_E` tests (QMath.cpp:751, 755) and differentiation's constant-zero tests. Evaluation fails only on a tree holding a Differential. The engine would throw there.
