# Workshop pizza order — a verified model

The pizza order generator turns attendance numbers into an order text for a
pizzeria. It has three parts:

- **Total.** It computes a total number of pizzas from the participants,
  staff and weeks into the semester. The formula truncates toward zero, and
  any result of zero or less becomes one pizza.
- **Distribution.** It splits the total over seven varieties. Six varieties
  each take their ratio of the pool the earlier ones left, in a fixed order.
  Verde and Kickiricki are raised to at least one pizza. Fior di Margherita
  takes what is left.
- **Order text.** It writes one ` - <name> x<count>` line per variety with a
  positive count.

The model is written in Dafny as pure functions over immutable data:

| file | module | models |
|---|---|---|
| `optional.dfy` | `Optional` | the `Option` type |
| `truncation.dfy` | `Truncation` | Python's `int()` on a quotient: division rounding toward zero |
| `totals.dfy` | `Totals` | the total-pizza formula and the clamp to one pizza |
| `distribution.dfy` | `Distribution` | the ratio table and the allocator, as a fold over a table of shares that threads the remaining pool |
| `decimal.dfy` | `Decimal` | `str` of a natural number |
| `items.dfy` | `Items` | the item-line formatter, the loop that joins the lines, and a parser that reads them back |
| `prompts.dfy` | `Prompts` | what a prompt does with a typed line; the recipient sentence; the answer that saves the order |
| `order.dfy` | `Order` | the pieces put together: the total the user settles on and the order built from it |

## Small totals

The ratio table ends with the comment that Fior di Margherita takes the
remainder (pizza.py:17), which reads as the counts adding up to the total.
For small totals they do not:

- For a total of 0 or 1, the two forced varieties get one pizza each.
- This drives the pool to `total - 2`, which is negative, and Fior di Margherita gets `max(0, total - 2) = 0`: `max(0, -1)` for a total of 1, `max(0, -2)` for a total of 0.
- So the counts add up to 2, not to the total.

The model follows the code. `Distribution.DistributionTotal` states the sum
for every non-negative total: the total from two up, and 2 below. Through the
program's own entry point the total is at least one, so only a total of 1
shows this.

## Model

| member | source | states |
|---|---|---|
| `Truncation.TruncDiv` | pizza.py:45-47 | Python's `int()` of a quotient by a positive divisor, rounding toward zero; `Truncation.TruncDivBounds` and `Truncation.TruncDivUnique` state its remainder bounds and that they determine it |
| `Truncation.TruncDivBounds` | pizza.py:82-89 | rounding toward zero leaves a remainder with the dividend's sign, smaller than the divisor |
| `Truncation.TruncDivUnique` | pizza.py:82-89 | any value with such a remainder is the truncated quotient, so the contract determines it |
| `Truncation.TruncDivVersusFloor` | pizza.py:82-89 | truncation equals floor division for a non-negative dividend; for a negative one that is not a multiple, it is one more |
| `Truncation.TruncDivShrinks` | pizza.py:45-47 | a truncated share lies between zero and the pool, on the pool's side of zero |
| `Truncation.TruncDivMonotone` | pizza.py:82-89 | truncation toward zero is monotone in the dividend |
| `Totals.TotalPizzas` | pizza.py:80-89 | the result is the exact quotient `(0.8P + 1.0S - 0.4W) / 3.5` truncated toward zero: at most the quotient and within one below it if it is non-negative, at least it and within one above it if negative |
| `Totals.TotalPizzasFromScaled` | pizza.py:80-89 | the same total in integers: `(8P + 10S - 4W) / 35`, dividing the magnitudes and keeping the numerator's sign |
| `Totals.TotalPizzasMonotone` | pizza.py:80-89 | more participants or staff never lower the total; more weeks never raise it |
| `Totals.FiftyParticipantsExample` | pizza.py:80-89 | 50 participants, 5 staff and week 2 give a quotient of 44.2/3.5 and 12 pizzas |
| `Totals.SmallNegativeQuotientTruncatesToZero` | pizza.py:80-89 | 1 participant and week 3 give a quotient in (-1, 0). It truncates to 0, where floor division would give -1, and the clamp makes it 1 |
| `Totals.ClampTotal` | pizza.py:125-129 | the clamped total is at least 1; it is 1 exactly when the input is at most 1; above 1 it is the input unchanged |
| `Totals.CalculatedTotal` | pizza.py:124-129 | the total offered to the user is at least 1. It is 1 whenever the exact quotient is below 1, and otherwise the whole part of the quotient |
| `Distribution.Take` | pizza.py:43-49 | bounds on one step's quantity. A forced step takes at least 1, and exactly 1 from a negative pool. From a non-negative pool a step takes 0 to the whole pool, except for the forced pizza. From a negative pool an unforced step takes between the pool and 0 |
| `Distribution.TakeIs` | pizza.py:43-47 | the value of one step: given the pool divided by the share's divisor and truncated toward zero (characterised by its remainder), the step takes that value, raised to 1 for a forced share when it is below 1 |
| `Distribution.Allocate` | pizza.py:38-51 | one entry per share of the table; the quantities plus the pool left over equal the starting pool |
| `Distribution.AllocateVarieties` | pizza.py:42-49 | the fold's entries list the table's varieties in the table's order |
| `Distribution.AllocateIsSequential` | pizza.py:38-50 | the quantity of step `i` is what share `i` takes from the starting pool minus everything the earlier steps took |
| `Distribution.Distribute` | pizza.py:36-55 | seven entries: the six ratio steps as the fold computes them, then Fior di Margherita |
| `Distribution.RemainderTakesRest` | pizza.py:52-53 | Fior di Margherita gets the total minus the six steps' sum, or 0 when the steps took more than the total |
| `Distribution.DistributionOrder` | pizza.py:10-18 | the distribution lists Gamberetti, Funghi, Verde, Kickiricki, Prosciutto, Salame, Fior di Margherita, in that order |
| `Distribution.RatiosForcedByName` | pizza.py:43 | the table marks a share as forced exactly when its name is "Verde" or "Kickiricki" |
| `Distribution.ForcedSharesGetOne` | pizza.py:43-45 | in any table and from any pool, every forced share gets at least one pizza |
| `Distribution.ForcedVarietiesGetOne` | pizza.py:43-45 | for every total, Verde and Kickiricki are in the distribution with at least one pizza each |
| `Distribution.AllocateNonNegative` | pizza.py:42-50 | if each unforced share's divisor exceeds the deficit the forced shares before it can cause, no step's quantity is negative and the pool ends overdrawn by at most one pizza per forced share |
| `Distribution.AllocateKeepsPool` | pizza.py:42-50 | if the pool covers the forced shares and each share's divisor exceeds the forced shares still to come, the fold never overdraws the pool |
| `Distribution.RatiosAreBalanced` | pizza.py:10-18 | the declared ratios have two forced shares and meet both conditions above |
| `Distribution.DistributionNonNegative` | pizza.py:45-53 | for a total of 0 or more, every variety's count is non-negative |
| `Distribution.DistributionSumsToTotal` | pizza.py:45-53 | from two pizzas up, the counts add up to exactly the total |
| `Distribution.DistributionTotal` | pizza.py:36-55 | for every total of 0 or more, the counts add up to the total when it is at least 2, and to 2 otherwise. They equal the total exactly when it is at least 2 |
| `Distribution.SmallTotalsOvershoot` | pizza.py:36-55 | a total of 0 or 1 gives 0, 0, 1, 1, 0, 0, 0 |
| `Distribution.TwentyPizzasExample` | pizza.py:36-55 | twenty pizzas give 2, 4, 3, 2, 3, 2, 4, which add up to 20 |
| `Decimal.NatToString` | pizza.py:34 | the decimal text of a count has at least one digit and no leading zero, and it is "0" exactly for zero |
| `Decimal.ParseNatToString` | pizza.py:34 | reading the digits back gives the number |
| `Decimal.NatToStringParse` | pizza.py:34 | every digit string without a leading zero is the text of its own value, so each number has exactly one text |
| `Items.FormatItem` | pizza.py:30-34 | the line is empty exactly when the count is at most 0; otherwise it ends in a newline and is bullet, name, " x" and digits long |
| `Items.ParseFormatItem` | pizza.py:30-34 | every line the formatter writes for a positive count parses back to its name and count |
| `Items.FormatParseItem` | pizza.py:30-34 | every line the parser accepts has a positive count and is exactly the formatter's line for that name and count |
| `Items.ItemLineRoundTrip` | pizza.py:30-34 | a line parses to an item exactly when the item's count is positive and the line is the formatter's line for that item |
| `Items.ItemList` | pizza.py:146-148 | the pizza details as the join of each entry's line in distribution order; `Items.ParseItemList` states that it reads back as exactly the positive entries in order |
| `Items.BuildItemList` | pizza.py:146-148 | the loop that appends each entry's line, in distribution order, yields the item list |
| `Items.ItemListAppend` | pizza.py:146-148 | one more entry appends exactly its own line to the item list |
| `Items.ParseItemList` | pizza.py:146-148 | the item list of any distribution reads back line by line as the names and counts of its positive entries, in order; zero counts leave no line |
| `Items.SmallTotalsItemList` | pizza.py:146-148 | for a total of 0 or 1, the list is the Verde line and then the Kickiricki line, one pizza each |
| `Prompts.ReadNumber` | pizza.py:64-78 | with a default, an empty line gives the default and skips the minimum check. Otherwise a line `int` rejects is asked again, and so is a number below the minimum. An accepted number is the parsed value and meets the minimum |
| `Prompts.FirstAccepted` | pizza.py:61-78 | the loop returns the first accepted line's value, and every earlier line was asked again. It returns nothing exactly when every line is asked again |
| `Prompts.AcceptedRespectsMinimum` | pizza.py:64-72 | the accepted value meets the minimum unless it is the default, taken on an empty line |
| `Prompts.CountPromptsRespectMinimum` | pizza.py:111-121 | a number prompt with a minimum and no default never yields less than the minimum: at least 1 participant, no negative staff or weeks |
| `Prompts.AdjustedTotalPositive` | pizza.py:134-140 | the adjustment prompt's default is the clamped total and its minimum is 1, so the total it hands on is at least 1 |
| `Prompts.EmptyLineKeepsTotal` | pizza.py:64-65 | an empty first line at the adjustment prompt keeps the calculated total |
| `Prompts.EmptyLineWithoutDefault` | pizza.py:64-78 | at a prompt without a default, an empty line (which `int` rejects) is asked again as not a number |
| `Prompts.ReadText` | pizza.py:64-76 | a text prompt returns any non-empty line as typed. It returns the default for an empty line if there is one, and the empty line otherwise |
| `Prompts.RecipientMessage` | pizza.py:99 | the recipient sentence ends in " will receive the order." after a non-empty subject |
| `Prompts.RecipientReadsBack` | pizza.py:99 | the subject of the sentence is the name given, or "I" for an empty name |
| `Prompts.RecipientMessageInjective` | pizza.py:99 | two names give the same sentence exactly when they are equal, or one is empty and the other is "I" |
| `Prompts.RecipientFromPrompt` | pizza.py:95-99 | with the recipient prompt's empty default, an empty line gives the sentence with "I" as subject, and any other line gives the sentence naming that line |
| `Prompts.Lower` | pizza.py:182 | lower-casing keeps the length and lower-cases each character in place |
| `Prompts.ConfirmsSave` | pizza.py:182 | whether the save question's answer saves the order; `Prompts.ConfirmsSaveExactly` states that it holds exactly for `y` or `yes` in any letter case |
| `Prompts.ConfirmsSaveExactly` | pizza.py:182 | the order is saved exactly for a one-letter answer `y`/`Y`, or a three-letter answer spelling y, e, s in any case |
| `Order.AdjustmentPrompt` | pizza.py:134-139 | the adjustment prompt has a default of at least 1 and a minimum of 1 |
| `Order.PositiveTotalsAreSound` | pizza.py:140-148 | for every total of at least 1, the order is sound. No count is negative. Verde and Kickiricki have at least 1 each. The counts add up to the total, or to 2 for a total of 1. The pizza lines read back as exactly the positive entries |
| `Order.SettledOrder` | pizza.py:124-148 | whatever total the user settles on at the adjustment prompt is at least 1, and its order is sound |

## Left out

- Floating point. The source computes with binary floats: 0.8, 0.4, 3.5 and the ratios 1/7, 1/4, 1/3. The model uses the exact rationals these constants denote.
  - For `int(n * (1/d))` with `d` in {7, 4, 3}, this agrees with truncated `n / d` for the pool sizes a workshop produces.
  - It can differ where the rounding of the float product crosses an integer, for example at very large pools. That rounding is not modelled.
  - No number prompt has a maximum. `participants * 0.8` (pizza.py:84) and `remaining_pizzas * ratio` (pizza.py:45, 47) convert the integer to a float, which raises an uncaught `OverflowError` above the largest double (about 1.8e308), for example for an adjusted total of 10**400. `Totals.TotalPizzas` and `Distribution.Distribute` return ordinary values there; the model does not stop the program at that size.
- `Totals.TotalPizzas`: computes the total in exact arithmetic. The program's float computation can be one lower when the exact quotient is a whole number. For 4 participants, 5 staff and week 3 the exact quotient is 7 / 3.5 = 2 and the model gives 2. In IEEE-754 doubles, `4*0.8 + 5*1.0 - 3*0.4` rounds to 6.999999999999999, the quotient to 1.9999999999999998, and `int` gives 1. `Totals.CalculatedTotal` inherits this.
- Ratios as divisors. Every ratio in the source is a unit fraction `1/k`, so a share stores the divisor `k`. The name-based test for Verde and Kickiricki is a flag on the share. `Distribution.RatiosForcedByName` ties the flag to the names.
- Python's `int()` string parsing. Whitespace, signs, underscores and Unicode digits are library behaviour. A number prompt is modelled on an abstract parse result, `None` where `int` raises `ValueError`.
- Console I/O. `input`, every `print`, the warnings and the preview are not modelled. A prompt's typed lines are a parameter.
- The rest of the order text. The template around the pizza lines (greeting, billing fields, delivery location, size, signature) is fixed text and not modelled. So is the phone sentence, which only pastes the two answers in.
- Writing `order.txt` and its error handling are I/O and not modelled.
- `Prompts.Lower`: lower-cases ASCII letters only, where Python's `str.lower` covers all of Unicode. No character outside ASCII lower-cases to `y`, `e` or `s`, so `Prompts.ConfirmsSave` decides the same answers.
- `Prompts.FirstAccepted`: models a finite sequence of typed lines. The source asks again until a line is accepted. When input ends first, `input()` raises `EOFError`, which the `except ValueError` at pizza.py:77 does not catch, so the program stops with that error. Here a sequence with no accepted line gives `None`, which stands for that case.
