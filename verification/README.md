# Verified model of the Kconfig engine and of sstrip

Two parts of Buildroot are modelled here in Dafny, and what they are for is proved.

**The Kconfig engine** (`package/config`) keeps dependency expressions over the
values n < m < y, simplifies them, hands them down a menu tree that it reshapes on
the way, computes the values of symbols lazily, and writes and reads
configuration files.

| files | what they hold |
|---|---|
| `Tristate`, `Expr` | the values, expressions, and their meaning under a valuation |
| `ExprEq`, `ExprEqExact`, `Dups`, `Transform`, `TransCompare` | the simplifier: each pass as a function or as a loop over the operand slots, with its meaning |
| `ExprNodes` | the passes that overwrite nodes, on heap nodes, each tied to its function |
| `MenuDeps`, `MenuConditions` | what a condition becomes on its way down, and over the whole chain of ancestors |
| `MenuBuild`, `MenuShape`, `MenuTree` | building the menu tree, and `menu_finalize` on its `next`/`list`/`parent` links: submenus, flattening, and the walk over the result |
| `Numerals`, `Comparisons` | `strtoll`, `strtoull` and `sprintf` with their limits, and how two symbols are compared |
| `Symbols`, `SymbolValues`, `SymbolLaws`, `StringSettings` | the value of a symbol as a recursive definition, what it amounts to case by case, and its laws |
| `Constants` | when the values of a configuration are a valuation the simplifier is right for |
| `SymbolCache`, `SymbolTable` | the lazy evaluator with its VALID marks, tied to that definition |
| `Choices` | a boolean choice and its members, evaluated lazily |
| `DependencyGraph`, `CycleCheck` | the recursive dependency checker |
| `Defconfig`, `Quoting`, `ConfText`, `DefconfigText`, `ConfWrite`, `Loading`, `ConfRead` | minimal configurations, the text of a configuration file, and back, with and without what the loader withdraws |

A valuation (`Exprs.Env`) gives every symbol a value and every pair of symbols the
outcome of their comparison; `Exprs.WellTyped` says which of them are possible: the
constants have their own values, a bool symbol is never m, comparing with y, m or n
tests the value, and a tristate symbol does not equal two different constants at
once. The values of a configuration satisfy all of this but the last, which depends
on the constants that occur (`n` and `"0"` are both equal to a symbol that is n);
`Constants` says for which of them the simplifier's results hold.

In the menu tree the nodes are numbered in file order, and `NULL` is -1. Next to the
links, ghost variables `end` and `up` say which interval of nodes each subtree is and
whose list each node is in; `Valid` ties the links to them. As every method keeps the
numbering, the preorder of the tree never changes.

**sstrip** (`package/sstrip`) cuts an ELF file in place after the last byte its
program headers refer to. `ElfBytes` holds the numbers in headers for both byte
orders of file and host, `Elf` what the changes mean for the memory images of the
segments, `Sstrip` the program itself on an open file, `ElfHosts` that the host's
byte order makes no difference, and `ElfExample` a file that
it damages.

## Where the code and its documentation or purpose part

* `expr_eq` is documented to call two expressions equal if every operand of one
  side equals an operand of the other (package/config/expr.c:244-249). A repeated
  operand is enough for it to say no (`RepeatedOperandDiffers`); on one level of plain
  operands it compares them as multisets (`FlatLevelExact`). It is sound throughout.
* Joining `A=b && A!=c` to `A=b` for two different constants is wrong for a tristate
  symbol exactly if it equals both (`EqualUnequalExact`), so it is right for all
  values exactly if the constants are apart (`JoinExactOnConstants`); `n` and `"0"`
  are not, as one is compared as a string and the other as a number
  (`LetterAndNumber`).
* An ordered comparison of a bool or tristate symbol with y, m or n compares the
  letters, in which m comes before n (`TristatesOrder`).
* Negating an ordered comparison keeps its meaning exactly if the operands can be
  compared at all (`NegatedCompareExact`).
* `expr_trans_bool` under a negation can turn n into m (`TransBoolNeedsNnf`);
  `menu_finalize` only calls it on negation normal forms, and that is proved.
* `expr_trans_compare` of a negated symbol is right exactly if the symbol is not m
  (`NegatedSymbolExact`), and of a connective compared with m exactly if that is n
  (`CompareWithModExact`).
* Below a symbol without a prompt, or with an unconditional one, every following item
  that mentions the symbol is taken into its submenu (`BelongsTo`, `PullSiblings`).
* `sym_check_deps` is documented to return NULL when all is well
  (package/config/symbol.c:1312). Called from outside it returns NULL even after
  reporting a cycle, if no choice is involved: the reports are what tells.
* `sym_set_tristate_value` with the value the symbol has already leaves the cached
  values alone. They stay right except where y is set while the prompt shows only m
  and y is neither selected nor implied (`SettingCurrentExact`, `SettingCurrentChanges`).
* `conf_write_defconfig` followed by `conf_read_simple` and evaluation restores a
  configuration exactly if none of these settings is in it (`SymbolRestored`): m of a
  symbol that shows m only, is selected as m and is y by default (`SettingIsLost`),
  which needs modules; a number whose range does not keep what it has clamped once,
  which for bounds that can be read back means an empty range (`EmptyRangeExact`); and
  a string or number that is selected.
* `conf_read` then withdraws every string and number that is out of range
  (package/config/confdata.c:449-471), which changes the condition in both directions:
  a number is lost exactly if its own value is out of range and the default gives
  another one (`SymbolLoaded`). With an empty range a number whose default lies on the
  same side is restored (`EmptyRangeLoaded`); with a negative hexadecimal upper bound
  a number above it is lost if its default is within the range (`NegativeBoundLoaded`).
  Only the withdrawn symbol's own cached value is dropped (`ConfRead.CheckSetting`).
* `sym_set_string_value` with the string of a setting that was withdrawn leaves the
  cached values alone (package/config/symbol.c:713-716); they are right exactly if the
  symbol's value does not change (`SymbolTable.Table.SetString`).
* A negative bound of a hexadecimal range is printed with `%llx` and read back as the
  greatest number there is (`Numerals.HexReadsBack`). So a number clamped to it is
  clamped again to the other bound (`NegativeBoundExact`), and its printed form is
  kept though it is out of range (`StringSticks`).
* The dependency checker follows neither what implies a symbol nor the bounds of its
  ranges, which evaluation needs (`AcceptedIsAcyclic`).
* A value survives the text of a configuration file exactly if it is a string
  without an end of line, a valid number, or m for a tristate symbol with modules on
  (`LineRoundTrip`).
* sstrip reads the program header table right after the header, but writes it back
  where the header says it is (package/sstrip/sstrip.c:171-190, 281-291). For a file
  with the table elsewhere the adjusted table is there exactly if the adjusted bytes
  after the header are the same (`TableKeptExactly`, `SegmentLost`). Images ask for
  more: they are kept if those bytes are the same before (`OwnImagesPreserved`), and of
  an entry at the same offset exactly if it says the same of type, memory and image
  (`OwnImageExact`, `ImageLost`). A table that begins inside the header is written
  over it (`FieldUnderTable`). A segment whose end wraps around 64 bits
  keeps its image only if all of it is zero (`ImageExact`).

## Model

| member | source | states |
|---|---|---|
| Exprs.ContainsIsSupport | package/config/expr.c:843-869 | the value of an expression depends on no symbol it does not contain |
| Exprs.ContainsExact | package/config/expr.c:843-869 | an expression contains exactly the symbols whose renaming changes it |
| ExprEquality.EliminateYnEval | package/config/expr.c:308-389 | folding the constants y and n keeps the value under every valuation |
| ExprEquality.EliminateYnFolds | package/config/expr.c:308-389 | afterwards no connective has a constant y or n operand, and an expression without such operands is left as it is |
| ExprEquality.CancelRowInPlace | package/config/expr.c:149-189 | one operand slot against all slots of the other tree, each hit overwriting both slots, does what the recursive specification says |
| ExprEquality.CancelInPlace | package/config/expr.c:149-189 | the double loop over the slots of both trees refines the recursive specification |
| ExprEquality.CancelTreesFactor | package/config/expr.c:149-189 | there is one value c such that each of the two trees is c joined with what is left of it |
| ExprEquality.ExprEqSound | package/config/expr.c:251-295 | expressions reported equal have the same value under every valuation; the mutual recursion terminates |
| ExprEquality.SupersetTest | package/config/expr.c:220-240 | if only y is left of the second expression, the first is at most the second, for all root connectives and both phases |
| ExprEqualityExact.FlatLevelExact | package/config/expr.c:242-295 | on one level of symbols, comparisons and negations of these, equal exactly if the operands are the same as multisets |
| ExprEqualityExact.SupersetExact | package/config/expr.c:149-240 | if a chain is cancelled against operands of the same level that are literals, nothing is left of these exactly if they are among its own, as multisets |
| ExprEqualityExact.RepeatedOperandDiffers | package/config/expr.c:242-250 | the documented criterion is not what is computed: A&&A&&B and A&&B have the same operands and meaning and are not found equal |
| Duplicates.JoinSound | package/config/expr.c:423-579 | two operands joined into one keep the value of their connective |
| Duplicates.EqualUnequalExact | package/config/expr.c:531-545 | the rule that joins an equality and an inequality with two different constants keeps the value exactly if the symbol does not equal both |
| Duplicates.EqualsJoin | package/config/expr.c:423-429 | equal operands are always joined into one |
| Duplicates.TestsJoin | package/config/expr.c:451-470 | two different tests of a tristate symbol against y, m and n are joined into one: equalities or-ed, inequalities and-ed, one of each and-ed |
| Duplicates.SymbolAndTestJoin | package/config/expr.c:516-529 | a symbol and-ed with a test of it for y, not n, or not m is joined, in either order |
| Duplicates.NegationJoins | package/config/expr.c:471-475 | a bool symbol or-ed with its negation is y |
| Duplicates.ContradictionJoins | package/config/expr.c:531-545 | an equality and an inequality of a tristate symbol with the same constant are joined to n |
| Duplicates.StepJoin | package/config/expr.c:588-646 | overwriting slot i by the neutral constant and slot j by the join keeps the value of the whole level, also though both arguments range over one tree |
| Duplicates.ProgressShrinks | package/config/expr.c:656-678 | a pass that rewrote anything makes the folding that follows strictly smaller |
| Duplicates.EliminateDups1 | package/config/expr.c:588-646 | the aliased pairwise pass keeps the value, and reports no rewriting exactly if no two operands can be joined at any level reached |
| Duplicates.EliminateDupsLevel | package/config/expr.c:588-646 | one pass keeps the value and the negation normal form; if it rewrote anything, folding constants strictly shrinks the result |
| Duplicates.EliminateDups | package/config/expr.c:656-678 | the loop ends, the result is equivalent, no larger, mentions no new symbols besides y, m and n, has no two operands left that can be joined, and is the input if that had none |
| Transformation.DeMorganLighter | package/config/expr.c:785-838 | pushing a negation through a transformed connective lowers the weight that bounds the recursion |
| Transformation.TransformEval | package/config/expr.c:686-841 | the value is kept under every valuation in which ordered comparisons are between comparable values |
| Transformation.NegatedCompareExact | package/config/expr.c:752-784 | for a negated ordered comparison, the value is kept exactly if the operands are comparable |
| Transformation.TransformNormal | package/config/expr.c:686-841 | the result is in normal form: a negation only above a non-constant symbol, no equality or inequality of a bool symbol with y, m or n; and normal forms are left as they are |
| Transformation.BoolTests | package/config/expr.c:707-751 | of a bool symbol, s=y and s!=n become s, s=n and s!=y become !s, s=m becomes n, s!=m becomes y |
| Transformation.TransformIdempotent | package/config/expr.c:686-841 | a second application changes nothing |
| Transformation.TransformNoNew | package/config/expr.c:686-841 | no symbol comes in besides y, m and n |
| Transformation.TransBoolEval | package/config/expr.c:393-418 | on a negation normal form the value does not rise and is n exactly if it was n |
| Transformation.TransBoolRemovesTests | package/config/expr.c:393-418 | afterwards no tristate symbol is tested for not being n; an expression without such tests is left as it is |
| Transformation.TransBoolNeedsNnf | package/config/expr.c:393-418 | under a negation the same step can turn n into m |
| Transformation.RewriteMEval | package/config/menu.c:76-102 | the rewritten expression has the value of the old one with m read as min(m, MODULES) |
| TransComparison.TransCompareEval | package/config/expr.c:914-977 | the result is y exactly if the comparison with y or n holds, where symbols under a negation are not m |
| TransComparison.NegatedSymbolExact | package/config/expr.c:945-946 | for a negated symbol that condition is exact |
| TransComparison.CompareWithModExact | package/config/expr.c:924-944 | of a connective compared with m the result is right exactly if the connective is n |
| TransComparison.LeafWithMod | package/config/expr.c:947-970 | comparing a symbol or a comparison with m decides whether its value is m |
| TransComparison.DependsOnForces | package/config/expr.c:871-898 | if an expression that depends on a bool or tristate symbol is not n, neither is the symbol |
| TransComparison.DependsOnExact | package/config/expr.c:871-898 | an expression depends on a symbol exactly if one of the operands and-ed at its top is the symbol, its equality with y or m, or its inequality with n |
| TransComparison.ComparisonForcesExactly | package/config/expr.c:876-893 | the comparisons taken for a dependency force a symbol exactly if it is bool or tristate |
| TransComparison.NonNCondition | package/config/menu.c:448-450 | the condition built for the submenu test is y exactly if the original is not n, else n |
| TransComparison.BelongsTo | package/config/menu.c:454-483 | an item accepted below a symbol mentions it, and has a dependency that forces the symbol or forces its prompt visible; a direct dependency is always accepted, and without a condition on the prompt exactly the items that mention the symbol are; any other item that mentions it, if no operands of the tests can be joined, is accepted exactly if its test is a superset |
| TransComparison.PositiveTested | package/config/expr.c:914-977 | and-ed and or-ed bool symbols are their own test for not being n, after two rounds of De Morgan |
| TransComparison.SupersetOfSymbols | package/config/menu.c:463-483 | if the prompt asks for bool symbols and-ed together, the condition of an item is a superset exactly if these are among its and-ed operands |
| ExprNodes.Node.EliminateYnInPlace | package/config/expr.c:308-389 | overwriting nodes in place gives the tree of the specification, in the same node |
| ExprNodes.Node.TransBoolInPlace | package/config/expr.c:393-418 | likewise |
| ExprNodes.Node.RewriteMInPlace | package/config/menu.c:76-102 | likewise, with new nodes for the added conjunctions |
| ExprNodes.Node.TransformCompareInPlace | package/config/expr.c:705-751 | likewise for comparisons of bool symbols |
| ExprNodes.Node.TransformInPlace | package/config/expr.c:686-841 | the whole transformation on nodes, with De Morgan steps that re-enter on transformed children, gives the tree of the specification |
| MenuDependencies.AllocAndEval | package/config/expr.c:51-56 | a missing expression is y as an operand of a conjunction |
| MenuDependencies.AllocOrEval | package/config/expr.c:58-63 | a missing expression is n as an operand of a disjunction |
| MenuDependencies.RewriteEval | package/config/menu.c:348-349 | rewriting m and transforming keep the value with m read as min(m, MODULES), and give a negation normal form |
| MenuDependencies.Inherit | package/config/menu.c:348-352 | the four passes in a row give min(parent dependency, own condition) where ordered comparisons are comparable, never more than the parent dependency, nothing that neither mentions besides y, m, n and MODULES, and no two operands that can still be joined |
| MenuDependencies.InheritBool | package/config/menu.c:392-398 | for symbols that are not tristate the result is that without tests for not being n: at most the same, n exactly if that is n, and never more than the parent dependency |
| MenuConditions.AddReverseRecords | package/config/menu.c:404-413 | a recorded select or imply keeps what was recorded before and adds min(selector, condition) |
| MenuConditions.RecordAllExact | package/config/menu.c:404-412 | after recording all selects or implies of a node, the value for a target is the one before or that of one of them |
| MenuConditions.ChainExact | package/config/menu.c:332-398 | the final dependency of a node is at most the minimum of the conditions written along its chain of ancestors, n exactly if that is n, and exactly that if no ancestor is a prompt of a symbol that is not tristate |
| MenuBuild.Builder.AddEntry | package/config/menu.c:47-63 | an entry appended at the last entry pointer becomes the last node of the current menu, and all links are those of the tree read so far |
| MenuBuild.Builder.AddMenu | package/config/menu.c:65-69 | the entry just added becomes the current menu |
| MenuBuild.Builder.EndMenu | package/config/menu.c:71-75 | the menu around the current one is current again, and the pointer stands behind the closed one |
| MenuBuild.Builder.Finish | package/config/menu.c:41-75 | what has been read meets everything `menu_finalize` needs of it |
| MenuShape.SubmenuLinked | package/config/menu.c:490-494 | the three link assignments that close a submenu give the links of the tree with the pulled nodes one level deeper |
| MenuShape.FlattenLinked | package/config/menu.c:565-575 | the link assignments that flatten a node give the links of the tree with its children one level higher |
| MenuShape.GrownLinked | package/config/menu.c:47-63 | the one assignment through the last entry pointer gives the links of the tree with one more node |
| MenuTree.Menus.PropagateNode | package/config/menu.c:343-413 | a node's dependency and properties become the inherited ones, its selects and implies are recorded, nothing else changes |
| MenuTree.Menus.PropagateChildren | package/config/menu.c:332-413 | so for all children of a node, whose list may not be touched meanwhile |
| MenuTree.Menus.PullSiblings | package/config/menu.c:448-488 | the run of siblings taken into the submenu is justified item by item against the prompt, or y without one; each is finalised once; the run stops only at an item that is no direct dependency, is no superset of a prompt with a condition, and without such a condition does not mention the symbol |
| MenuTree.Menus.CloseSubmenu | package/config/menu.c:490-494 | the pulled siblings become the children, and no node's conditions change |
| MenuTree.Menus.MakeSubmenu | package/config/menu.c:426-494 | the siblings that move below the leaf are those that follow it without a gap, each with its reason; the next one could not have been taken |
| MenuTree.Menus.FlattenNode | package/config/menu.c:565-575 | the children of a node without prompt move up behind it, and their parent pointers say so |
| MenuTree.Menus.FlattenChildren | package/config/menu.c:498-576 | after the last loop every child with a list has a prompt and every parent pointer names the right node |
| MenuTree.Menus.FinalizeChildren | package/config/menu.c:419-424 | all children are finalised once though each may take in the siblings that follow |
| MenuTree.Menus.Finalize | package/config/menu.c:296-577 | a node takes in no more than its siblings; below it everything is handed down, linked and finalised once; outside nothing changes; it terminates |
| MenuTree.Menus.FinalizeRoot | package/config/menu.c:296-577 | on the whole tree: each node is finalised exactly once, every parent pointer names the node whose list holds it, every node but the root with children has a prompt, preorder and conditions are right |
| MenuTree.Menus.ReverseExact | package/config/menu.c:404-412 | in the finished tree what selects or implies a symbol is exactly the greatest min(selector, condition) of all selects or implies of it, n without any |
| MenuTree.Menus.ComparedConditions | package/config/menu.c:448-455 | what decides on submenus is n exactly if a prompt cannot be seen, or without a prompt the dependency is not met, by all that is written along the ancestors |
| MenuTree.Menus.WalkStep | package/config/confdata.c:823-836 | the stackless step leads to the next node in file order, or ends after the last |
| MenuTree.Menus.Walk | package/config/confdata.c:779-836 | the walk visits every node but the root once, in file order, whatever surgery was done |
| Symbols.ComputeSupport | package/config/symbol.c:357-498 | the value and attributes of a symbol depend only on the symbols its declaration mentions |
| Symbols.DenUnfolds | package/config/symbol.c:357-498 | the value by recursion along ranks solves the equations of all symbols at once |
| Symbols.SameValues | package/config/symbol.c:357-498 | if a change of settings is invisible to every symbol's own computation, no value changes |
| Numerals.DecimalReadsBack | package/config/symbol.c:182-183 | a printed decimal number is read back, in the whole range of `long long` |
| Numerals.HexReadsBack | package/config/symbol.c:184-185 | so is a hexadecimal one that is not negative; a negative one is read as the greatest number |
| Numerals.ShowInjective | package/config/symbol.c:182-186 | different numbers are printed differently |
| Numerals.PrefixIgnored | package/config/symbol.c:706-711 | putting 0x before hexadecimal digits does not change what is read |
| Numerals.Saturates | package/config/symbol.c:152 | a number beyond the range of long long is read as the nearest one within |
| Numerals.Samples | package/config/expr.c:1007-1024 | hexadecimal, octal and signed numbers as they are read with base 0 and 10 |
| Comparisons.EqualsConstant | package/config/expr.c:991-1091 | a bool or tristate symbol equals a constant exactly if that is its letter, or reads as its number |
| Comparisons.NumbersOrder | package/config/expr.c:1069-1085 | two int symbols, and an int symbol and a constant, compare as the numbers they show |
| Comparisons.HexNumbersOrder | package/config/expr.c:1082-1083 | hexadecimal symbols compare as unsigned numbers |
| Comparisons.MixedNumbersOrder | package/config/expr.c:1082-1083 | an int and a hexadecimal symbol compare as unsigned numbers, so that a negative one is greater than all others |
| Comparisons.StringsOrder | package/config/expr.c:1069-1075 | strings compare by their first different character, and one that ends there comes first |
| Comparisons.TristatesOrder | package/config/expr.c:999-1004 | bool and tristate symbols compare by their values, but with y, m and n by the letters |
| Comparisons.OtherUnordered | package/config/expr.c:1074-1082 | what cannot be compared is equal exactly if the strings are, and has no order |
| SymbolValues.NumbersInFull | package/config/expr.c:1062-1100 | in every configuration, all six relations between two numbers, or a number and a constant, are those of the numbers |
| Constants.JoinExactOnConstants | package/config/expr.c:531-545 | that rule is right for all values of a symbol exactly if no value equals both constants |
| Constants.LetterAndNumber | package/config/expr.c:991-1024 | `n` and `"0"` are such constants that one value equals both |
| Constants.StringNotForced | package/config/expr.c:1069-1091 | a configuration in which a string equals y and is no set symbol |
| Constants.FullIsSorted | package/config/symbol.c:357-498 | the values of every configuration are typed, but for what constants have in common |
| Constants.EquivalentInFull | package/config/expr.c:656-678 | what the simplifier keeps equivalent has the same value in every configuration, if the constants that occur are apart |
| Constants.InheritedInFull | package/config/menu.c:348-352 | and an inherited condition has the value min(parent condition, own condition) there |
| Constants.InheritedNonNInFull | package/config/menu.c:392-398 | or, for symbols that are not tristate, is n exactly if that is |
| SymbolLaws.BoolNeverMod | package/config/symbol.c:443-445 | a symbol of bool type, or a tristate one without modules, is never m |
| SymbolValues.LogicalValue | package/config/symbol.c:405-445 | the value of a bool or tristate symbol in every configuration, from what the user has set, what is visible, the first default in force with its condition, what implies and what selects it |
| SymbolValues.DefaultValue | package/config/symbol.c:427-436 | without setting, select and imply it is min(value, condition) of the default whose condition is not n while those of all earlier ones are; n if there is none; m is raised for a symbol that acts as bool |
| SymbolValues.StringValue | package/config/symbol.c:446-470 | a string or number is what the user has set if it is visible, else the symbol of the first default in force, else empty, and then clamped |
| SymbolValues.UntypedValue | package/config/symbol.c:390-393 | a symbol without a type stands for its name, and is n |
| SymbolValues.VisibilityExact | package/config/symbol.c:215-239 | the visibility is the greatest of the prompts, with m raised to y for all but tristate symbols with modules on |
| SymbolValues.ReverseExact | package/config/symbol.c:242-269 | what selects and implies a symbol, with m raised for one that acts as bool, and nothing implied where the direct dependencies are n |
| SymbolValues.DirDepExact | package/config/menu.c:496 | the direct dependencies have the greatest value of the conditions of the entries, and are missing exactly if these all are |
| SymbolValues.ClampsToNearest | package/config/symbol.c:155-187 | for bounds that can be read back and are not the wrong way round, the clamped string is the nearest number in range, and a number in range is kept as it is written |
| SymbolValues.NoRange | package/config/symbol.c:162-174 | without a range in force nothing is changed |
| SymbolLaws.ReverseDependencyHonoured | package/config/symbol.c:436-441 | the value is at least the reverse dependency |
| SymbolLaws.SelectHonoured | package/config/menu.c:404-409 | the value of a target is at least min(selector, condition) for every select recorded by the menus |
| SymbolLaws.SettingKeepsAttributes | package/config/symbol.c:209-270 | a setting changes neither visibility nor reverse dependency nor imply of its own symbol |
| SymbolLaws.AcceptedSticks | package/config/symbol.c:511-566 | nothing is accepted for a symbol of which no more is visible than is selected; an accepted value is what the symbol then evaluates to; for a changeable symbol the only value refused that would also stick is y where y is implied and m visible |
| SymbolLaws.SettingCurrentExact | package/config/symbol.c:532-566 | setting the current value keeps it, except exactly where it is y above a visibility of m without y being selected or implied |
| SymbolLaws.SettingCurrentChanges | package/config/symbol.c:532-566 | a configuration in which setting the current y makes the symbol m |
| SymbolLaws.DefaultsAgree | package/config/symbol.c:732-801 | the separately written default computation gives the string of the value without a user setting |
| SymbolValues.LogicalEmitted | package/config/confdata.c:790-799 | a bool or tristate symbol is emitted exactly if more is visible than is selected and its value is not the one it has without a setting |
| SymbolValues.StringEmitted | package/config/confdata.c:790-799 | a string or number is emitted exactly if more is visible than is selected and it is not what its default reads |
| SymbolTable.Table.CalcExpr | package/config/expr.c:1026-1104 | evaluating an expression calculates what it mentions, compares symbols by their strings or numbers, and gives the value in the full configuration, keeping the cache right |
| SymbolTable.Table.CalcVisibility | package/config/symbol.c:209-270 | visibility, dependency, reverse dependency and imply are those of the full configuration |
| SymbolTable.Table.ValidateRange | package/config/symbol.c:155-182 | the clamped number is that of the first range in force, its bounds calculated on demand |
| SymbolTable.Table.CalcTri | package/config/symbol.c:405-445 | the branches and the jump of the tristate part compute the specified value |
| SymbolTable.Table.CalcStr | package/config/symbol.c:446-463 | likewise for strings and numbers |
| SymbolTable.Table.CalcValue | package/config/symbol.c:357-498 | whatever was calculated before, the result is the recursive value, and every valid symbol not under calculation keeps its right value |
| SymbolTable.Table.SetTristate | package/config/symbol.c:532-566 | accepted exactly as the range allows; a change takes effect and the cache is right again; with the current value the cache stays right exactly under the stated condition |
| StringSettings.StringSticks | package/config/symbol.c:634-724 | a valid string set for a visible symbol is its value exactly if it was within range or is what a negative upper bound is printed as, also with the prefix added; for an invisible symbol it has no effect |
| StringSettings.StoredHasPrefix | package/config/symbol.c:708-718 | a hexadecimal number is stored with a prefix, one that has it and everything else as it is |
| StringSettings.ClampExact | package/config/symbol.c:155-187 | the validation keeps exactly the numbers within range, and that printed bound |
| StringSettings.ClampTwice | package/config/symbol.c:155-187 | clamping again changes nothing exactly if the bound a number was clamped to is within range when read again |
| StringSettings.StableIsNotEmpty | package/config/symbol.c:155-187 | for bounds that can be read back that means that the range is not empty |
| SymbolTable.Table.SetString | package/config/symbol.c:676-724 | accepted exactly if within range, in which case it is stored and the cache is right again; with the string of a withdrawn setting the cache stays right exactly if the value of the symbol does not change, or is not cached |
| SymbolTable.Table.CalcStringWithinRange | package/config/symbol.c:634-661 | the check, its bounds calculated on demand, decides the range in the full configuration |
| SymbolTable.Table.GetStringDefault | package/config/symbol.c:732-801 | the default string is the specified one, and the cache stays right |
| SymbolTable.Table.WriteDefconfig | package/config/confdata.c:769-840 | the text written for symbols in the given order reads back as the minimal configuration exactly if all its values are writable ones |
| ConfWrite.WriteMenus | package/config/confdata.c:769-840 | so it does for the symbols of the finalised menus, met by the stackless walk in file order |
| Defconfig.SymbolRestored | package/config/confdata.c:797-821 | for every symbol, reading what is kept of its setting and evaluating gives its value again exactly if the setting is not one of those that are lost |
| Defconfig.MinimalConfigRestores | package/config/confdata.c:769-840 | evaluating from the emitted settings alone gives every symbol its value of the full configuration if no setting is lost |
| Defconfig.RestoredOnlyIfNothingLost | package/config/confdata.c:797-821 | conversely, if every symbol is restored no setting is lost |
| Defconfig.MinimalConfigWithoutModules | package/config/confdata.c:769-840 | with modules off, no number selected, and ranges that are not empty and have no negative hexadecimal bound, every configuration is restored |
| Defconfig.EmptyRangeExact | package/config/symbol.c:155-187 | evaluated from the kept setting, a visible number with bounds that can be read back is restored exactly if its range is not empty, whatever setting and default are |
| Defconfig.NegativeBoundExact | package/config/symbol.c:182-187 | evaluated from the kept setting, a hexadecimal number below a negative lower bound is restored exactly if the bounds are the same or the upper one is the greatest number |
| Defconfig.SettingIsLost | package/config/confdata.c:797-805 | a configuration in which a setting is lost |
| Loading.SymbolLoaded | package/config/confdata.c:449-471 | after the loader has withdrawn what is out of range, a symbol is restored exactly if it is not a lost m, and not a string or number whose value is out of range while the default gives another |
| Loading.LoadingRestores | package/config/confdata.c:408-484 | then the settings left restore every value of the configuration |
| Loading.LoadingRestoresOnlyIf | package/config/confdata.c:408-484 | and only if no symbol is one of those |
| Loading.EmptyRangeLoaded | package/config/confdata.c:449-471 | with an empty range, lost are exactly the numbers whose default is not on the same side of it |
| Loading.NegativeBoundLoaded | package/config/confdata.c:449-471 | above a negative hexadecimal upper bound, lost are exactly the numbers whose default is not clamped to the same |
| Loading.InvisibleHarmless | package/config/confdata.c:451-457 | withdrawing the setting of an invisible symbol changes no value |
| ConfRead.CheckSetting | package/config/confdata.c:458-467 | a string or number is withdrawn exactly if it is out of range in the configuration that was read |
| ConfRead.Load | package/config/confdata.c:408-484 | the two loops withdraw no string or number exactly if all are within range; then every value is what the settings read determine, and the cache is right |
| ConfRead.Read | package/config/confdata.c:408-484 | of the text of a minimal configuration in which nothing is lost, with plain numbers, nothing is withdrawn and every value is that of the original configuration |
| Choices.ChildIsBounded | package/config/menu.c:328-334 | what a choice's children inherit from it, dependency and prompt, is n wherever the choice is n, under every typed valuation |
| Choices.ExactlyOne | package/config/symbol.c:304-334 | of the members at most one is not n, and one is y exactly if the choice and some member are visible |
| Choices.PickedIsChosen | package/config/symbol.c:319-326 | the member the user picked is the one that is y exactly if it is visible; else the default decides |
| Choices.DefaultIsChosen | package/config/symbol.c:278-292 | with the choice on and no visible pick, the member of the first default whose condition is not n and whose member is visible is y |
| Choices.FirstVisibleIsChosen | package/config/symbol.c:293-302 | without such a default, the first visible member is y |
| Choices.Group.CalcVisibility | package/config/symbol.c:209-237 | evaluating a member's prompts may calculate the choice on the way, and gives the visibility under the final mode |
| Choices.Group.CalcPrompts | package/config/symbol.c:220-232 | the loop over the prompts finds whether one is visible under the final mode |
| Choices.Group.CalcChoice | package/config/symbol.c:405-470 | the choice gets its mode and its member whatever has been calculated before |
| Choices.Group.PickMember | package/config/symbol.c:304-334 | the user's member if visible, else the first usable default, else the first visible member; none turns the choice off |
| Choices.Group.SeeMembers | package/config/symbol.c:311-318 | the loop over the members calculates their visibility, and finds whether the choice and all that are visible have been set by the user |
| Choices.Group.ChoiceDefault | package/config/symbol.c:278-302 | the two loops find the default member |
| Choices.Group.CalcMember | package/config/symbol.c:405-445 | in whatever order members are calculated each gets the same value |
| Choices.Group.SetMember | package/config/symbol.c:532-566 | a change is accepted only for a visible member set to y; then that member is y and all others n, and the choice and all its visible members count as set |
| DependencyGraph.TopologicalExtends | package/config/symbol.c:1312-1344 | a symbol left when all it refers to has been left extends the topological order |
| DependencyGraph.NoCycleInOrder | package/config/symbol.c:1206-1273 | no cycle enters symbols in topological order |
| DependencyGraph.AcceptedIsAcyclic | package/config/symbol.c:1241-1273 | if the checker accepts, and what implies a symbol and its range bounds respect the same order, evaluation is well-founded |
| DependencyGraph.MentionedIsFollowed | package/config/symbol.c:1241-1273 | everything else a symbol's value refers to is followed, direct dependencies by way of the menu entries |
| DependencyGraph.DirDepIsFollowed | package/config/menu.c:496 | what the collected direct dependencies mention is in the condition of some entry |
| DependencyGraph.FollowedExact | package/config/symbol.c:1241-1273 | a symbol has an edge to exactly the symbols in its reverse dependency, its entries, and the conditions of its prompts, defaults, ranges and implies, and the values of its defaults |
| DependencyGraph.EntryConditionExact | package/config/menu.c:387-398 | the condition by which an entry is followed is n exactly if the dependency of the entry is |
| CycleCheck.Checker.Report | package/config/symbol.c:1128-1204 | the part of the stack that is reported is a real cycle |
| CycleCheck.Checker.CheckExpr | package/config/symbol.c:1206-1239 | nothing returned and nothing reported means all symbols of the expression are in the order; the stack and the flags are as before |
| CycleCheck.Checker.CheckSymDeps | package/config/symbol.c:1241-1273 | likewise for everything a symbol refers to |
| CycleCheck.Checker.CheckDeps | package/config/symbol.c:1312-1344 | likewise for a symbol; from an empty stack nothing is ever returned; each symbol is entered at most once |
| CycleCheck.Checker.CheckAll | package/config/symbol.c:1312-1344 | no report exactly if there is no cycle; each symbol is entered at most once; no CHECK flag is left |
| Quoting.UnescapeEscape | package/config/symbol.c:962-1003 | undoing the quotes of an escaped string gives it back, for every string |
| Quoting.PlainEscape | package/config/symbol.c:985-1003 | a string without quotes and backslashes is only put between quotes |
| Quoting.UnescapeBackslash | package/config/confdata.c:160-172 | a backslash takes the following character as it is |
| Quoting.EscapedSize | package/config/symbol.c:969-983 | the size worked out in advance is the length of the result plus one |
| Quoting.EscapeStringValue | package/config/symbol.c:985-1003 | the space allocated is filled by the escaped string and its terminator, with no write outside |
| Quoting.UnescapeInPlace | package/config/confdata.c:160-177 | the in-place loop with its moves gives the unescaped text, and fails exactly if there is no closing quote, also for a backslash at the very end |
| Quoting.StringValid | package/config/symbol.c:591-632 | accepted exactly are the numerals of the type |
| Quoting.ValidIntExact | package/config/symbol.c:598-610 | the valid integers are the strings that some number is printed as, and -0 |
| Quoting.ValidHexExact | package/config/symbol.c:611-618 | the valid hexadecimal numbers are one or more hexadecimal digits with or without 0x or 0X |
| Quoting.IntValid | package/config/symbol.c:598-610 | an optional minus, then 0 or digits without leading zero |
| Quoting.HexValid | package/config/symbol.c:611-618 | an optional 0x, then at least one hexadecimal digit |
| ConfText.SetSymValInPlace | package/config/confdata.c:126-194 | the setting made from a value in the line buffer is the specified one |
| ConfText.ReadSimple | package/config/confdata.c:294-385 | reading line by line and character by character gives the settings of the whole text |
| ConfText.ReadsUnset | package/config/confdata.c:316-347 | an `is not set` line is read as n |
| ConfText.ReadsValue | package/config/confdata.c:348-374 | a value line is read as that value |
| ConfText.FirstLetterCounts | package/config/confdata.c:130-152 | of a bool or tristate value only the first letter counts |
| ConfText.IllFormedIgnored | package/config/confdata.c:161-191 | a value that is not well-formed for its symbol changes nothing |
| ConfText.OtherLinesIgnored | package/config/confdata.c:348-374 | nor does a line without the prefix, without =, or for an unknown symbol |
| ConfText.OtherCommentsIgnored | package/config/confdata.c:316-347 | nor a comment that does not say of a known bool or tristate symbol that it is not set |
| ConfText.CarriageReturnDropped | package/config/confdata.c:353-358 | the end of a line may be a line feed with a carriage return before it |
| ConfText.SampleLines | package/config/confdata.c:487-508 | how lines look for a bool symbol that is n or y, a number, and a string |
| ConfText.LineReadsBack | package/config/confdata.c:487-508 | the line written for a writable value sets exactly that value, whatever was set before |
| ConfText.ReadIsReadable | package/config/confdata.c:126-194 | whatever a file says, what is read from it are values of the right form |
| ConfText.LineRoundTrip | package/config/confdata.c:730-749 | a line gives back its value exactly if the value is a writable one |
| ConfText.ReadConcat | package/config/confdata.c:217-249 | reading a text of whole lines and then more is reading both in turn |
| ConfText.ReadAddsNoChars | package/config/confdata.c:217-249 | a character that is nowhere in the text is in no setting read from it |
| DefconfigText.TextIsMinimal | package/config/confdata.c:769-840 | the text reads back as the minimal settings exactly if all its values are writable |
| DefconfigText.TextRestores | package/config/confdata.c:769-840 | from the configuration to the text of its minimal form and back by reading and evaluating, every symbol has its value again if no setting is lost |
| ElfBytes.EgetIsFileOrder | package/sstrip/sstrip.c:95-114 | on a host of either order a field is read in the file's own order |
| ElfBytes.EsetIsFileOrder | package/sstrip/sstrip.c:118-133 | and written in it, truncated to its width |
| ElfBytes.EgetEset | package/sstrip/sstrip.c:95-133 | what is written is read back |
| ElfBytes.BswapTwice | package/sstrip/sstrip.c:103-107 | swapping twice gives the number back |
| ElfHosts.RecognisedExact | package/sstrip/sstrip.c:149-190 | in terms of its bytes and the numbers in the file's own order, which files are recognised; the same on hosts of both orders |
| ElfHosts.SameSizeOnEveryHost | package/sstrip/sstrip.c:80-133 | the size to keep is the same on hosts of both orders |
| ElfHosts.SameOnEveryHost | package/sstrip/sstrip.c:80-133 | and so is the stripped file, byte for byte |
| Elf.HeaderLayout | package/sstrip/sstrip.c:149-162 | the header fields follow one another up to the size of the header, for both classes |
| Elf.HeaderAdjusted | package/sstrip/sstrip.c:241-246 | only the reference to the section headers changes, and afterwards it is not beyond the new size |
| Elf.HeaderCleared | package/sstrip/sstrip.c:241-246 | if the section headers begin at the new size or later, all four fields that refer to them are zero; else the header is unchanged |
| Elf.SectionsForgotten | package/sstrip/sstrip.c:241-246 | the same of the new file, where the table is not inside the header |
| Elf.EntryAdjusted | package/sstrip/sstrip.c:252-259 | in an entry only offset and file size change, and the new values fit their fields |
| Elf.EntryKept | package/sstrip/sstrip.c:252-259 | every other byte of the entry stays |
| Elf.CutWithin | package/sstrip/sstrip.c:252-259 | the segment then ends within the new size exactly if it was not one whose end wraps around to before it |
| Elf.CutEnds | package/sstrip/sstrip.c:252-259 | a segment that is cut ends at the new size, one beyond it is empty there, and any other is unchanged |
| Elf.NeededCovers | package/sstrip/sstrip.c:208-223 | the size needed covers header, table and all segments |
| Elf.NeededIs | package/sstrip/sstrip.c:215-221 | and is no larger than that |
| Elf.NeededIsLeast | package/sstrip/sstrip.c:208-223 | no smaller size covers header, table and all segments |
| Elf.StrippedBytes | package/sstrip/sstrip.c:267-307 | the new file has the adjusted headers, is no longer than needed, and is elsewhere the same |
| Elf.ImagePreserved | package/sstrip/sstrip.c:197-307 | every segment whose end does not wrap around has the same memory image as before, but for bytes of the headers, and lies within the new file |
| Elf.ImageExact | package/sstrip/sstrip.c:197-307 | of any segment that holds exactly if its end does not wrap around, or it begins beyond the new size where the file is zero |
| Elf.ImagePreserved32 | package/sstrip/sstrip.c:197-307 | in a 32-bit file it holds of every segment |
| Elf.TableOverwritten | package/sstrip/sstrip.c:171-190 | what is at the table's offset afterwards comes from the bytes right after the header, wherever that offset is |
| Elf.TableKeptExactly | package/sstrip/sstrip.c:281-291 | so the old table, adjusted, is there exactly if those bytes, adjusted, are the same |
| Elf.FieldUnderTable | package/sstrip/sstrip.c:281-291 | header fields under a table that begins inside the header become bytes of the adjusted entries |
| Elf.FieldBeforeTable | package/sstrip/sstrip.c:273-279 | header fields before the table are the adjusted ones |
| Elf.KindFromBehindHeader | package/sstrip/sstrip.c:281-291 | the types of the entries there become what the bytes after the header say |
| Elf.OwnImagesPreserved | package/sstrip/sstrip.c:197-307 | with the table not inside the header, and its entries those after the header, the segments of the new file's own table have the old images |
| Elf.OwnImageExact | package/sstrip/sstrip.c:171-307 | in general a segment of the old table at the offset of the entry after the header keeps its image exactly if the two say the same of type, memory and image |
| Sstrip.ScanChunk | package/sstrip/sstrip.c:388-389 | the inner loop stops at the last byte of the chunk that is not zero, or at its start |
| Sstrip.NoProgress | package/sstrip/sstrip.c:380-390 | the outer loop would go on for ever exactly if the first byte alone is not zero |
| Sstrip.TruncateZeros | package/sstrip/sstrip.c:374-399 | the new size is the index of the last byte that is not zero plus one, across chunks; it fails exactly for a short or blank file |
| Sstrip.GetMemorySize | package/sstrip/sstrip.c:197-225 | the loop computes the needed size |
| Sstrip.CoverSegments | package/sstrip/sstrip.c:215-221 | the loop over the entries finds the greatest end |
| Sstrip.ModifyHeaders | package/sstrip/sstrip.c:231-262 | the header and every entry are adjusted in place |
| Sstrip.CommitChanges | package/sstrip/sstrip.c:267-310 | header and table are written back and the file is cut, never before the end of the table |
| Sstrip.Strip | package/sstrip/sstrip.c:431-466 | a file not recognised or not complete is left alone, and exactly those are refused; any other is stripped to the size it needs without the zeros at its end, unless the table cannot be seeked to |
| ElfExample.SegmentLost | package/sstrip/sstrip.c:171-190 | a file with the table elsewhere whose only segment is gone afterwards |
| ElfExample.ImageLost | package/sstrip/sstrip.c:171-307 | a file whose table comes out right though the image of its segment is lost |

## Left out

- Sharing and freeing of expression nodes: `ExprNodes` lets a node own its operands.
- Leaf slots: the pairwise passes work on an array of the operand slots of one level, which the tree is then planted with; the recursion that finds the slots is not in place.
- Expression lists and ranges (`E_LIST`, `E_RANGE`) outside properties.
- Choices in `SymbolTable`, `Defconfig` and `CycleCheck`, among them cycles through choices.
- MenuTree.Menus.Finalize: the children of a choice inherit from it, but registering members (package/config/menu.c:499-543), the reverse dependency of a choice and collecting the direct dependencies (`dir_dep`) are not part of it; the former is in `Choices`, the latter in `Symbols.DirDep`.
- MenuConditions.ChainExact: an ancestor prompt of a bool, string or number symbol passes on its condition as simplified for such symbols, which may be lower than written though n at the same time.
- Choices.ExactlyOne: for bool choices that are not optional, without defaults of members; conditions of members do not refer to members.
- SymbolTable.Table.CalcValue: MODULES has a fixed value; evaluation while MODULES itself is changing is not covered.
- ConfWrite.WriteMenus: comments and hidden menus write nothing; what the menus say of a symbol and its declaration in `Kconfig` are not connected, but that each symbol with a prompt is in a menu.
- SymbolTable.Table.SetString: the first letters of bool and tristate values and toggling are not modelled.
- ConfRead.Load: up to the first string or number that is withdrawn; what the loop does after that, with cached values of other symbols that may be out of date, is not followed. `Loading` takes what ranges show from the full configuration instead. The first loop's count of unsaved symbols is given.
- SYMBOL_CHANGED, SYMBOL_AUTO and environment symbols, warnings, and change counts.
- DependencyGraph.AcceptedIsAcyclic: what implies a symbol and its range bounds are not followed by the checker, so their order is assumed.
- The order of properties across kinds: prompts, defaults and ranges of a symbol are kept apart, each in order.
- ConfText.SetSymValInPlace: a symbol without a declared type becomes a string by a value without quotes (package/config/confdata.c:155-159); the value is stored, the change of type is not.
- ConfText.ReadSimple: the user's settings only, without choice members; bytes of value zero in files, and lines too short to hold the prefix, which the program reads beyond.
- Text that is not symbol lines: headings and menu comments of `conf_write`, and the other printers.
- `conf_split_config`, random and all-yes modes, the grammar, and all user interfaces.
- Failures of reading and writing itself in sstrip: an open file does what is asked, except seeking beyond the range of `off_t`.
- A host whose `unsigned long` has 32 bits.
