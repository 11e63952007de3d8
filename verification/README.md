# Verified model of the OSE_Exchange algo components

This project models six components of the exchange handler in Dafny and proves what they
promise over all inputs and all runs: the implied pricing graph and quote calculator, the
contract matrix generator, the interval timer, the profit-and-loss monitor, the order-event
routing with its command queue, and the weighted-average calculator.

Run `dafny verify dfyconfig.toml` in this directory to verify everything.

## Layout

| files | component |
|---|---|
| `Walks.dfy`, `Floyd.dfy`, `ImpliedPricer.dfy`, `SpreadGraph.dfy` | the two in-place shortest-path routines over an edge matrix |
| `ImpliedQuote.dfy` | the quote for one leg of a spread |
| `Contracts.dfy`, `MatrixGen.dfy` | month and year counters, labels, and the two maps between cells and labels |
| `TimerModel.dfy`, `IntervalTimer.dfy`, `TimerCommands.dfy` | the tick-driven timer, as a function and as an object, and what its commands come to |
| `TimerRuns.dfy`, `TimerPace.dfy`, `TimerDrift.dfy` | its state callbacks; order, spacing and rate of its interval callbacks; undisturbed runs |
| `PlModel.dfy`, `PLMonitor.dfy`, `PlRuns.dfy` | positions under watch, the monitor's loop, and properties of its runs |
| `PlLaws.dfy`, `PlCommands.dfy` | what the monitor's figures mean, and what its commands do |
| `RouterModel.dfy`, `Raptor2.dfy`, `RouterLaws.dfy`, `EventQueue.dfy` | callback registry and routing table, who gets an order's events; the flag-and-queue protocol |
| `WeightedAverage.dfy` | the incremental average price |
| `Machine.dfy`, `Ratios.dfy` | machine integers, and division by an integer that may be zero |

Each class method is tied to a function of the old state; the lemmas are about those functions.
Where other threads take part, what they do is an input: the timer takes the commands that land
before each of its reads of shared state (the two times before the wait, the active flag in the
wait, the triggered flag after it, work limit and end time after START, then the four reads of
every pass), the monitor takes what it drains in each turn, and the queue protocol is a set of
interleaved steps.

The timer's subtraction and its cast of milliseconds are written without a modulus; they equal the
wrapped 64-bit ones (`TimerModel.SubWraps`, `TimerModel.MicrosWraps`). A conversion to an int rounds
towards zero (`Machine.TruncTowardZero`), one to a byte keeps the remainder modulo 256
(`RouterModel.ByteIsCongruent`). The monitor starts with an
empty log and an empty watch map, which agree (`PlRuns.EmptyTracked`).

## Where the code and its promise part

Each of these is stated in a lemma, with the exact condition under which the promise holds.

- The distance matrix is exact at a cell if and only if no negative closed walk lies between
  the cell's nodes (`Floyd.StageExact`, `Floyd.BoundedExact`). A negative diagonal cell in the
  full result tells that the graph has such a walk, and only then (`Floyd.DiagonalDetects`).
- The implied quote realises its edge in every market if and only if the quoted leg's multiplier
  is 1 or -1 and all others are its opposite (`ImpliedQuote.QuoteIsRightIffBalanced`).
- The outright and the spread generator restart their years by different rules. They agree for all
  sizes if and only if the start year is in -9..9, or is 10 and not December, or is -10 and
  December (`Contracts.SpreadsUseOutrightMonths`). Labels repeat from month 121 on
  (`MatrixGen.InverseIffTenYears`).
- The timer's check asks for more than 100 ms between work limit and interval, where its message says
  at least 100 ms; for the whole seconds a start passes, that is any limit below the interval
  (`TimerCommands.AcceptedInSeconds`).
- An undisturbed run can report TRIGGERED a second time if and only if the end time leaves room for
  an interval and then the larger of the interval and the work limit as it is cast
  (`TimerDrift.FiresTwiceIffRoom`). The timer's check accepts a negative work limit, which is cast to
  almost 2^64 microseconds: where the end time leaves room for a second TRIGGERED, a run with clock
  readings below 2^62, whatever its commands, can report one if and only if the work limit is not
  negative (`TimerDrift.FiresTwiceIffWorkNotNegative`).
- A pass keeps the interval it reads itself, and the order of marks, if and only if it is no
  setback: the clock reads below the last mark in a pass that takes a reset, or that calculates
  with an interval within the wrapped difference (`TimerPace.PunctualIffNoSetback`, and for whole
  runs `TimerPace.RunPunctualIffNoSetbacks`). A falling clock triggers every microsecond
  (`TimerPace.FallingClockFires`).
- Unless the clock goes back, the timer's trace is a prefix of WAIT, ERROR or of WAIT, START, END if
  and only if no pass after END is awake (`TimerRuns.RunIsLegalIffAsleep`). That holds, whatever the
  clock, when the commands between END and the next look leave no entry of a second thread without
  a stop after it (`TimerRuns.RunIsLegal`); a start accepted after END spawns such a thread, and END
  is then reported twice (`TimerRuns.EndsTwiceExists`).
- The monitor's log tells exactly which ids are watched, through a whole run, if and only if no
  update brings a watched position with a terminal status into a turn in which all its legs have
  usable quotes (`PlRuns.RunExactIff`). Such a position is reported as closed, yet stays watched
  without being checked for exits, on every pass until one in which a leg lacks a usable quote;
  from then on it is watched like any other (`PlRuns.ClosedUntilUnquoted`).
- An updated position's price bounds match its entry price if and only if that price is its legs'
  spread price (`PlModel.PreparedBounds`).
- The first event of a recovered order fixes its route: if its session has not registered by then,
  later events never reach it (`RouterModel.EarlyEventStaysRecovered`). The two lookups of a
  session by guid agree if and only if it registered once (`RouterModel.LookupsAgree`).
- A command pushed and announced between the queue thread's empty check and its clearing of the
  flag is neither lost nor duplicated, but waits until the flag is raised again
  (`EventQueue.WaitingIffOvertaken`, `EventQueue.OvertakenExists`); the next raise delivers it
  (`EventQueue.NextRaiseDelivers`).

## Model

| member | source | states |
|---|---|---|
| ImpliedPricer.InitialDistances | src/AlgoEngines/ImpliedPricer.cpp:24-36 | The matrix both routines start from is the chosen side's price graph: INF on the diagonal and where no edge exists. |
| ImpliedPricer.WalksArePaths | src/AlgoEngines/ImpliedPricer.cpp:24-36 | The walks of either side's graph are the paths over existing edges between different instruments. |
| ImpliedPricer.CostIsSum | src/AlgoEngines/ImpliedPricer.cpp:30-33 | A walk costs the sum of the bids along it on the bid side, and of the asks on the ask side. |
| ImpliedPricer.LeastBidBelowLeastAsk | src/AlgoEngines/ImpliedPricer.cpp:24-47 | With uncrossed edges the least bid walk costs no more than the least ask walk. |
| ImpliedPricer.BidRunBelowAskRun | src/AlgoEngines/ImpliedPricer.cpp:22-90 | Then, for either routine, the bid run is nowhere above the ask run where the bid run is exact. |
| ImpliedPricer.RelaxAll | src/AlgoEngines/ImpliedPricer.cpp:39-47 | The in-place triple loop, for any prices, leaves a matrix meeting `FullResult` in which no cell is above what it was on entry; a matrix that already satisfies the triangle inequality is left unchanged, so a second run changes nothing. |
| ImpliedPricer.RelaxStage | src/AlgoEngines/ImpliedPricer.cpp:40-46 | One stage keeps every cell between the walk costs and the recurrence, moves the bound on by a stage, and raises no cell. |
| ImpliedPricer.RelaxRow | src/AlgoEngines/ImpliedPricer.cpp:41-46 | The same for one row of a stage, though the row and column it reads may have completed the stage. |
| ImpliedPricer.FloydShortestPaths | src/AlgoEngines/ImpliedPricer.cpp:22-47 | For any edge matrix: no cell above its edge, every finite cell the cost of a real walk, each cell the least walk cost iff no negative closed walk lies between its nodes, diagonal nonnegative iff no negative closed walk exists. |
| ImpliedPricer.RelaxRowByRow | src/AlgoEngines/ImpliedPricer.cpp:82-90 | The row-by-row loop computes, in place and for any prices, the recurrence stopped at the smaller endpoint; it leaves an upward graph's matrix unchanged. |
| ImpliedPricer.FloydShortestPaths2 | src/AlgoEngines/ImpliedPricer.cpp:65-90 | For any edge matrix: no cell above its edge, every finite cell the cost of a real walk; cell (i, j) is the least cost over walks whose intermediate nodes are below both i and j, iff no negative closed walk over such nodes lies between them. |
| Floyd.StageSound | src/AlgoEngines/ImpliedPricer.cpp:39-47 | Every finite value of the recurrence is the cost of a walk that exists, negative cycles included. |
| Floyd.StageComplete | src/AlgoEngines/ImpliedPricer.cpp:39-47 | No walk between two nodes is cheaper than the recurrence, unless some node met on the way had a negative diagonal cell. |
| Floyd.StageExact | src/AlgoEngines/ImpliedPricer.cpp:39-47 | The recurrence equals the least walk cost (INF iff there is no walk) iff no negative closed walk lies between the two nodes. |
| Floyd.BoundedExact | src/AlgoEngines/ImpliedPricer.cpp:39-47 | The same for any matrix between the walk costs and the recurrence, which is what in-place updates guarantee. |
| Floyd.SqueezedIsFullResult | src/AlgoEngines/ImpliedPricer.cpp:39-47 | A matrix squeezed that way has all the properties promised of the full routine. |
| Floyd.DiagonalDetects | src/AlgoEngines/ImpliedPricer.cpp:39-47 | The final diagonal, which starts at INF, is nonnegative iff the graph has no closed walk of negative cost. |
| Floyd.FullResultIsExact | src/AlgoEngines/ImpliedPricer.cpp:39-47 | Without negative closed walks, or on an upward graph with prices of any sign, every cell is the least walk cost and the result satisfies the triangle inequality. |
| Floyd.ClosedIsFixed | src/AlgoEngines/ImpliedPricer.cpp:39-47 | A matrix that satisfies the triangle inequality is its own full result. |
| Floyd.InPlaceRefines | src/AlgoEngines/ImpliedPricer.cpp:39-47 | Where no negative closed walk interferes, updating row k and column k while reading them gives the same result as the textbook recurrence. |
| Floyd.StagesAreRowByRow | src/AlgoEngines/ImpliedPricer.cpp:82-90 | The recurrence stopped at the smaller endpoint is exact for walks below both endpoints, with the exact cycle condition; on upward graphs it is the initial matrix. |
| Floyd.RowByRowIsWeaker | src/AlgoEngines/ImpliedPricer.cpp:82-90 | On the same input the row-by-row result is nowhere below the full one. |
| Floyd.UpwardHasNoCycle | src/AlgoEngines/ImpliedPricer.cpp:39-47 | A graph whose edges go from lower to higher indices has no negative closed walk, whatever the prices. |
| SpreadGraph.SpreadCellsGoUpward | src/AlgoEngines/MatrixGen.cpp:109-158 | Edges only on cells the spread generator fills form such a graph. |
| ImpliedQuote.CalculateSide | src/AlgoEngines/ImpliedPricer.cpp:106-194 | The leg loop returns the sum of the other legs' leans plus edge times the quoted multiplier, one hedge per other leg, and the quoted leg's side. |
| ImpliedQuote.BalancedRealised | src/AlgoEngines/ImpliedPricer.cpp:115-192 | With balanced multipliers, hedging the other legs at the touch costs the negated leans. |
| ImpliedQuote.QuoteIsRightIffBalanced | src/AlgoEngines/ImpliedPricer.cpp:115-192 | Filling at the quote and hedging every other leg at its bid or ask realises exactly the edge, for every market and edge, iff the multipliers are balanced. |
| ImpliedQuote.QuotesDoNotCross | src/AlgoEngines/ImpliedPricer.cpp:115-192 | With uncrossed books and bid edge at most ask edge, the side that buys the leg quotes no more than the side that sells it. |
| MatrixGen.MatrixGen.GenOutrightMatrix | src/AlgoEngines/MatrixGen.cpp:26-86 | Writes exactly the outright entries to both maps, in order; an unknown month throws before anything is written. |
| MatrixGen.MatrixGen.OutrightLoop | src/AlgoEngines/MatrixGen.cpp:45-81 | The wrapping counters of the outright loop produce the entries of successive months, whatever the label text. |
| MatrixGen.MatrixGen.GenSpreadMatrix | src/AlgoEngines/MatrixGen.cpp:89-171 | Writes exactly the spread entries of all rows to both maps, in order; an unknown month throws before anything is written. |
| MatrixGen.MatrixGen.SpreadLoops | src/AlgoEngines/MatrixGen.cpp:109-168 | The outer counter with its own year rule, row by row. |
| MatrixGen.MatrixGen.SpreadRow | src/AlgoEngines/MatrixGen.cpp:121-158 | The inner counter carried on from the outer one, for every later month. |
| Contracts.ClosedForm | src/AlgoEngines/MatrixGen.cpp:73-80 | For a one-digit start year both counters are month (start + n) mod 12 and year (year + (start + n) / 12) mod 10. |
| Contracts.SpreadsUseOutrightMonths | src/AlgoEngines/MatrixGen.cpp:121-167 | Every spread cell is described by the outright months of its row and column, for every size, iff the start is `Consistent`. |
| Contracts.SpreadIsItsOutrights | src/AlgoEngines/MatrixGen.cpp:121-167 | For such a start the description of spread cell (n, j) is that of outright n, a dash, and that of outright j. |
| Contracts.TextsTellApart | src/AlgoEngines/MatrixGen.cpp:50-60 | Descriptions of different months or month pairs differ, and no outright is described like a spread, for any product. |
| Contracts.MonthsCycle | src/AlgoEngines/MatrixGen.cpp:73-80 | Two months print alike iff they are a multiple of 120 apart. |
| Contracts.CodesAscend | src/AlgoEngines/MatrixGen.cpp:30-33 | The twelve month codes ascend through the year, from F to Z. |
| MatrixGen.SpreadEntry | src/AlgoEngines/MatrixGen.cpp:109-158 | The spread generator fills exactly the cells above the diagonal. |
| MatrixGen.SpreadCount | src/AlgoEngines/MatrixGen.cpp:109-158 | It makes size * (size - 1) / 2 entries. |
| MatrixGen.InverseIffInjective | src/AlgoEngines/MatrixGen.cpp:149-154 | The two maps are mutual inverses over the cells on and above the diagonal iff no two cells share a label. |
| MatrixGen.InverseIffTenYears | src/AlgoEngines/MatrixGen.cpp:45-168 | After one outright and one spread generation on a fresh object, in either order, the maps are mutual inverses iff there are at most 120 months. |
| IntervalTimer.IntervalTimer.StartTimer | src/AlgoCalculators/IntervalTimer.cpp:27-55 | Accepted parameters (interval, work limit, end not before start) update the shared fields, rejected ones change nothing; a thread is spawned only if none is marked active. |
| IntervalTimer.IntervalTimer.UpdateTimerInterval | src/AlgoCalculators/IntervalTimer.cpp:57-63 | The interval becomes the seconds in microseconds, a negative count wrapping in 64 bits. |
| IntervalTimer.IntervalTimer.PauseTimer | src/AlgoCalculators/IntervalTimer.cpp:65-70 | Only the paused flag changes. |
| IntervalTimer.IntervalTimer.StopTimer | src/AlgoCalculators/IntervalTimer.cpp:72-76 | Only the active flag changes, to false. |
| IntervalTimer.IntervalTimer.ResetTimerInterval | src/AlgoCalculators/IntervalTimer.hpp:84-87 | Only the reset flag changes, to true. |
| IntervalTimer.IntervalTimer.WaitForStart | src/AlgoCalculators/IntervalTimer.cpp:269-295 | The wait loop's fields and outcome, for any commands between its clock readings. |
| IntervalTimer.IntervalTimer.Run | src/AlgoCalculators/IntervalTimer.cpp:78-180 | The thread's final fields, whole event trace and last recorded mark, for any commands before each of its reads. |
| IntervalTimer.IntervalTimer.Tock | src/AlgoCalculators/IntervalTimer.cpp:143-174 | One pass through the reset, trigger and work checks, in that order. |
| TimerCommands.AcceptedInSeconds | src/AlgoCalculators/IntervalTimer.cpp:193-232 | A start is accepted iff its interval is positive, its work limit is none or less than the interval, its times parse, and the end is not before the start. |
| TimerCommands.PauseIsLast | src/AlgoCalculators/IntervalTimer.cpp:65-70 | Whether the timer is paused is what the last pause or accepted start says. |
| TimerCommands.IntervalIsLast | src/AlgoCalculators/IntervalTimer.cpp:57-63 | The interval is that of the last update or accepted start: its seconds in wrapped microseconds. |
| TimerCommands.SettingsAreLast | src/AlgoCalculators/IntervalTimer.cpp:38-45 | Times and work limit are those of the last accepted start. |
| TimerCommands.PausedPassIsSilent | src/AlgoCalculators/IntervalTimer.cpp:121-128 | A pass reports nothing if the last pause or start before its second read is a pause; otherwise, active, it is awake. |
| TimerCommands.PausedRunIsSilent | src/AlgoCalculators/IntervalTimer.cpp:121-128 | Once paused, a run reports nothing, END included, until it is resumed or started anew. |
| TimerCommands.ResetIsTaken | src/AlgoCalculators/IntervalTimer.cpp:145-152 | An awake pass before the end takes a reset iff one is pending by then, reports it first, restarts the interval at its reading, and leaves only later resets pending. |
| TimerCommands.LaunchReadsInOrder | src/AlgoCalculators/IntervalTimer.cpp:90-118 | A start that lands after the work limit is read does not change it; an entry of a second thread before the triggered flag is read refuses the run. |
| TimerRuns.RunIsLegalIffAsleep | src/AlgoCalculators/IntervalTimer.cpp:78-141 | For a clock that never goes back: a run's trace is a prefix of WAIT, ERROR or of WAIT, START, END iff no pass after END is awake; interval events come before the end time. |
| TimerRuns.LegalIffAsleep | src/AlgoCalculators/IntervalTimer.cpp:121-141 | The same for the loop from any state it can be going in. |
| TimerRuns.RunIsLegal | src/AlgoCalculators/IntervalTimer.cpp:78-141 | Whatever the clock, the trace is such a prefix if the commands between END and the next look leave no second thread's entry without a stop after it. |
| TimerRuns.NeverRevivedIffNoEntry | src/AlgoCalculators/IntervalTimer.cpp:121-141 | No look after END finds the timer active iff those commands leave no entry standing. |
| TimerRuns.EndsTwiceExists | src/AlgoCalculators/IntervalTimer.cpp:48-81 | A start and its thread's entry between END and the next look give a run that reports END twice. |
| TimerRuns.StepsBefore | src/AlgoCalculators/IntervalTimer.cpp:135-141 | Interval callbacks come before the end time, whatever the commands and the clock. |
| TimerRuns.AloneHasNoEntry | src/AlgoCalculators/IntervalTimer.cpp:121-141 | Without second threads no entry stands after END, so the trace is legal. |
| TimerRuns.EndsAgainIffRevived | src/AlgoCalculators/IntervalTimer.cpp:121-141 | After END the next look lets the trace go wrong iff some entry has landed with no stop after it; otherwise it ends the loop. |
| TimerRuns.PassShaped | src/AlgoCalculators/IntervalTimer.cpp:121-141 | A pass that is stopped or paused reports nothing; END comes from awake passes at or past the end time only; the trace shape is kept. |
| TimerRuns.EndsAtFirstExpiry | src/AlgoCalculators/IntervalTimer.cpp:135-141 | END is reported iff some unpaused tick is at or past the end time. |
| TimerRuns.RefusedIffStopped | src/AlgoCalculators/IntervalTimer.cpp:269-295 | A run with accepted times reports ERROR iff a stop has landed by some look before which no reading had reached the start time. |
| TimerRuns.WaitGivesUp | src/AlgoCalculators/IntervalTimer.cpp:275-292 | For any two times read: the wait gives up iff some first deciding look finds the timer stopped or a clock past the end and before the start. |
| TimerPace.PunctualIffNoSetback | src/AlgoCalculators/IntervalTimer.cpp:143-162 | Each TRIGGERED of a pass comes at least the interval read in that pass after every earlier TRIGGERED and consumed reset, and no reset is marked before them, iff the pass is no setback. |
| TimerPace.RunPunctualIffNoSetbacks | src/AlgoCalculators/IntervalTimer.cpp:121-177 | The same for all passes of a run, with arbitrary pauses, resets, interval changes and clock readings. |
| TimerPace.MonotoneHasNoSetbacks | src/AlgoCalculators/IntervalTimer.cpp:143-162 | A clock that never goes back makes no setbacks. |
| TimerPace.FallingClockFires | src/AlgoCalculators/IntervalTimer.cpp:143-174 | A clock falling by a microsecond per tick triggers at each of them, breaking spacing and rate. |
| TimerPace.StepsAlternate | src/AlgoCalculators/IntervalTimer.cpp:154-174 | TRIGGERED and MAXSECS alternate, TRIGGERED first, whatever the commands and the clock. |
| TimerPace.StepsTimely | src/AlgoCalculators/IntervalTimer.cpp:143-174 | Without setbacks no TRIGGERED comes within the smallest interval of the run after a TRIGGERED or a consumed reset. |
| TimerPace.RateBound | src/AlgoCalculators/IntervalTimer.cpp:143-174 | Then any window of length L holds at most 1 + L / I TRIGGERED callbacks. |
| TimerPace.RunIsTimely | src/AlgoCalculators/IntervalTimer.cpp:78-180 | Order, spacing and rate for whole runs from thread entry. |
| TimerDrift.NoDriftToTheEnd | src/AlgoCalculators/IntervalTimer.cpp:121-177 | With a work limit at least d below the interval and undisturbed ticks at most d apart, consecutive TRIGGERED callbacks are at least the interval and less than the interval plus d apart. |
| TimerDrift.AcceptedRunDoesNotDrift | src/AlgoCalculators/IntervalTimer.cpp:205-215 | Any limits the check accepts leave that room for ticks up to 100 ms apart. |
| TimerDrift.StartedRunDoesNotDrift | src/AlgoCalculators/IntervalTimer.cpp:27-55 | The same for a run started with accepted seconds, for ticks up to a second apart. |
| TimerDrift.WholeRunDoesNotDrift | src/AlgoCalculators/IntervalTimer.cpp:27-180 | The same for the whole run of the thread that an accepted start spawns, when nobody disturbs it. |
| TimerDrift.UnreachableWorkStalls | src/AlgoCalculators/IntervalTimer.cpp:164-174 | With a work limit beyond every clock reading, TRIGGERED is reported at most once. |
| TimerDrift.FiresTwiceIffRoom | src/AlgoCalculators/IntervalTimer.cpp:112-174 | An undisturbed run can report TRIGGERED twice iff an interval and then the larger of the interval and the cast work limit fit before the end time. |
| TimerDrift.FiresTwiceIffWorkNotNegative | src/AlgoCalculators/IntervalTimer.cpp:112-174 | Where the end time leaves that room for a work limit that is not negative, a run with readings below 2^62 can report TRIGGERED twice, under any commands, iff the limit is not negative. |
| PlModel.TimeLeftIsExact | src/AlgoEngines/PLMonitor.hpp:186-221 | The wrapped 64-bit remaining time is entry + 60,000,000 * minutes - now exactly, for all 32-bit minutes and timestamps below 2^62. |
| PlModel.AdjustedMinutes | src/AlgoEngines/PLMonitor.cpp:106-145 | Over any sequence of risk items the minutes are the last set value plus all pushes after it. |
| PlModel.AdjustAppend | src/AlgoEngines/PLMonitor.cpp:106-145 | Risk commands one after another do what one command holding all their items does. |
| PlModel.AdjustKeeps | src/AlgoEngines/PLMonitor.cpp:106-145 | Expiry stays entry plus ttl; identity, status, legs and profit stay. |
| PlModel.AdjustKeepsBounds | src/AlgoEngines/PLMonitor.cpp:118-129 | Target and stop stay at the profit and loss distances from the entry price. |
| PlModel.PreparedBounds | src/AlgoEngines/PLMonitor.cpp:57-96 | They start there for a new position, and for an update iff its price is its legs' spread price. |
| PlLaws.AdjustedBounds | src/AlgoEngines/PLMonitor.cpp:118-129 | Over any sequence of risk items profit and loss bounds are the last set values, and their prices that far from the entry price. |
| PlLaws.Lifetime | src/AlgoEngines/PLMonitor.cpp:89-96 | A position registered at a reading has its minutes to live from that reading, exactly. |
| PlLaws.NewStartsFresh | src/AlgoEngines/PLMonitor.cpp:76-85 | A new position starts watched, without profit and at its legs' spread price whatever it is registered with; an update keeps what it brings. |
| PlLaws.SpreadPosIsLast | src/AlgoEngines/PLMonitor.cpp:62-74 | With a unit multiplier the spread position is the last leg's position, signed by the multiplier. |
| PlLaws.PricemultSign | src/AlgoEngines/PLMonitor.cpp:62-74 | The sign of price multipliers does not matter to the entry price. |
| PlModel.ExitDecision | src/AlgoEngines/PLMonitor.cpp:299-384 | A position is closed iff every leg has a usable quote, it is watched, and its exact time is up or its full profit reaches a bound (stated without division). |
| PlModel.SignalsExactly | src/AlgoEngines/PLMonitor.cpp:299-384 | Which of the three exit signals a pass sends, exactly, with which status and over which profit; with an unusable quote the position only waits. |
| PlLaws.ProfitIsLeast | src/AlgoParams/Position.hpp:96-100 | Marking is conservative: no prices inside the market give a lower profit than the marks do. |
| PlLaws.PriceIsLeast | src/AlgoEngines/PLMonitor.cpp:287-297 | Nor a lower market price, where multipliers and positions agree in sign. |
| PlLaws.LeastIsReached | src/AlgoEngines/PLMonitor.cpp:265-297 | Both are reached inside the market. |
| PlLaws.ProfitIsPriceMove | src/AlgoParams/Position.hpp:96-100 | The profit of a spread held evenly is the move of its price since entry, times the units. |
| PlLaws.MarkMeans | src/AlgoEngines/PLMonitor.cpp:308-316 | So it is for what a pass leaves in the position. |
| PlLaws.WaitsIffUnusable | src/AlgoEngines/PLMonitor.cpp:265-311 | A position waits after a pass iff some leg has no book, a crossed one, one without prices, or one with nobody on a side. |
| PlLaws.SecondsLeftIsTruncated | src/AlgoEngines/PLMonitor.cpp:332-335 | The remaining seconds are the remaining time without its fraction. |
| PlLaws.SignalsInOrder | src/AlgoEngines/PLMonitor.cpp:319-384 | A pass reports the mark first, then the timer's, the profit's and the stop's signal in that order, each with its report behind it. |
| PLMonitor.PLMonitor.SumLegs | src/AlgoEngines/PLMonitor.cpp:253-297 | The loop with early exit counts all legs iff every leg has a present, uncrossed, two-sided quote, and then its sums are the full ones. |
| PLMonitor.PLMonitor.Mark | src/AlgoEngines/PLMonitor.cpp:251-316 | Profit, market price and profit per spread are set only on complete sums; otherwise only the status changes. |
| PLMonitor.PLMonitor.VisitPosition | src/AlgoEngines/PLMonitor.cpp:251-386 | One position in one pass: its new state or removal, and everything reported. |
| PLMonitor.PLMonitor.Exit | src/AlgoEngines/PLMonitor.cpp:338-384 | The three independent exit checks, their events, and the removal. |
| PLMonitor.PLMonitor.Prepare | src/AlgoEngines/PLMonitor.cpp:57-96 | The prepared position, new or updated. |
| PLMonitor.PLMonitor.Adjust | src/AlgoEngines/PLMonitor.cpp:104-145 | All risk items applied in order. |
| PLMonitor.PLMonitor.DrainCommands | src/AlgoEngines/PLMonitor.cpp:182-222 | Cover, cancel and risk commands in order; commands for unwatched ids change nothing. |
| PLMonitor.PLMonitor.Turn | src/AlgoEngines/PLMonitor.cpp:167-388 | One turn of the loop over the three queues and the watched positions. |
| PlRuns.RunTracked | src/AlgoEngines/PLMonitor.cpp:167-388 | Over every run: keys equal position ids, expiry follows entry and minutes, an id leaves only with a terminal report, quotes are the drained books in order. |
| PlRuns.VisitExactIff | src/AlgoEngines/PLMonitor.cpp:299-386 | Where the log tells exactly which ids are watched, a visit keeps it so iff its position is not both terminal and fully quoted. |
| PlRuns.TurnExactIff | src/AlgoEngines/PLMonitor.cpp:167-388 | A turn keeps it so iff none of its registrations is the last of its id, an update, terminal, and fully quoted after the turn's books. |
| PlRuns.RunExactIff | src/AlgoEngines/PLMonitor.cpp:167-388 | The same for every turn of a whole run. |
| PlRuns.ClosedUntilUnquoted | src/AlgoEngines/PLMonitor.cpp:299-330 | A position brought closed is reported as closed and not checked for exits while every pass finds its legs quoted; after one that does not, it is under watch again. |
| PlRuns.ExitsOnFullSums | src/AlgoEngines/PLMonitor.cpp:251-384 | Every exit signal of a turn goes out for a position whose legs all had usable quotes, with the profit over all of them. |
| PlRuns.QuotesAreLast | src/AlgoEngines/PLMonitor.cpp:224-231 | The quote kept for a security is the last book drained for it. |
| PlRuns.PassIsOrderFree | src/AlgoEngines/PLMonitor.cpp:251-386 | The watch map after a pass does not depend on the visit order. |
| PlRuns.CommandsFrame | src/AlgoEngines/PLMonitor.cpp:185-221 | Commands leave positions they do not name unchanged. |
| PlCommands.CommandSignals | src/AlgoEngines/PLMonitor.cpp:185-221 | One command: a cover of a watched id signals and reports it COVERED, a cancel only reports it CANCELED, both end its watch, nothing else is told. |
| PlCommands.CommandsSignal | src/AlgoEngines/PLMonitor.cpp:182-222 | The same for all commands of a turn, in order. |
| PlCommands.TurnCovers | src/AlgoEngines/PLMonitor.cpp:167-388 | A turn's market signals are, in order, the ids its cover commands find watched. |
| PlCommands.RunCovers | src/AlgoEngines/PLMonitor.cpp:167-388 | The same over a whole run. |
| PlCommands.RiskCommandsAddUp | src/AlgoEngines/PLMonitor.cpp:217-218 | Unless its watch is ended, a position is adjusted by all items of the risk commands that name it, in order. |
| PlCommands.RegisteredIsWatched | src/AlgoEngines/PLMonitor.cpp:233-242 | Whatever the turn's commands name, every id it registers is watched when its visits start. |
| Raptor2.Raptor2.RegisterCallback | src/Raptor2.cpp:667-707 | Fills the next slot and both guid names, or refuses at 19 sessions; slots below the count are filled and later ones null. |
| Raptor2.Raptor2.SendOrder | src/Raptor2.cpp:592-605 | Records the order's callback, the order book's when negative. |
| Raptor2.Raptor2.RedirectOrderCallback | src/Raptor2.cpp:607-617 | Records the new callback, narrowed to a byte. |
| Raptor2.Raptor2.MoveOrderToStrategy | src/Raptor2.cpp:631-643 | Records the callback iff its slot is filled. |
| Raptor2.Raptor2.CallbackExists | src/Raptor2.hpp:258-260 | True iff the id is a filled slot, that is 0 <= id < count. |
| Raptor2.Raptor2.OnExchOrdEvent | src/Raptor2.cpp:710-782 | Resolves and remembers the callback, and makes exactly one delivery. |
| Raptor2.Raptor2.RouteToCallback | src/Raptor2.cpp:785-810 | The session call for each order status. |
| Raptor2.Raptor2.GetCbidFromGuid | src/Raptor2.hpp:246-256 | Finds the first slot with the guid, or -1. |
| RouterModel.StepsConsistent | src/Raptor2.cpp:667-707 | Over every run: at most 19 sessions, slots never change hands, and both guid lookups name the latest registration. |
| RouterModel.EntryStays | src/Raptor2.cpp:592-643 | A request id keeps its entry until Send, Redirect or Move names it. |
| RouterModel.EventsFollowEntry | src/Raptor2.cpp:710-782 | Every event of that id goes to the entry's session iff its slot is filled by then, otherwise to recovery, once. |
| RouterModel.EarlyEventStaysRecovered | src/Raptor2.cpp:720-740 | A cached -1 sends all later events to recovery, and exactly when a first event caches -1. |
| RouterLaws.SenderGetsEvents | src/Raptor2.cpp:592-605 | All events of an order go to the session that sent it; without one, to the order book registered last, or to nobody. |
| RouterLaws.RedirectedGetsEvents | src/Raptor2.cpp:607-617 | After a redirect, to the slot redirected to, with -1 for the order book. |
| RouterLaws.MovedGetsEvents | src/Raptor2.cpp:631-643 | After a move to a session, to it; a move elsewhere changes nothing. |
| RouterLaws.RecoveredGoesToOwner | src/Raptor2.cpp:720-740 | A recovered order's first and later events go to the session last registered for its guid, else to the order book if it is one of its orders. |
| RouterLaws.UnknownIsAskedAgain | src/Raptor2.cpp:741-743 | An event of an unknown order goes to recovery and leaves no entry. |
| RouterLaws.RecoveryCountsOnce | src/Raptor2.cpp:760-778 | Recovery gets an event as it came, but for the callback, and without its fill when it may be a retransmission. |
| RouterLaws.CallsMatch | src/Raptor2.cpp:785-810 | Which statuses make which session call, exactly. |
| RouterLaws.FirstNineteenRegister | src/Raptor2.cpp:667-707 | Over every run the first nineteen registrations get the slots, in order, and no other does. |
| RouterModel.LookupsAgree | src/Raptor2.hpp:246-256 | The slot search and the guid map agree iff the guid registered once. |
| EventQueue.NothingLost | src/Raptor2.hpp:340-352 | In every interleaving, delivered, then in flight, then queued is exactly what was pushed, in order; at a clearing all that was pushed before the last look at the queue is delivered. |
| EventQueue.WaitingIffOvertaken | src/Raptor2.hpp:340-352 | In a quiet state commands wait iff the last clearing overtook them. |
| EventQueue.OvertakenExists | src/Raptor2.cpp:576-585 | A run in which that happens. |
| EventQueue.DrainDelivers | src/Raptor2.hpp:342-349 | Once the thread looks at the queue with the flag up, it delivers everything queued, in order, in a bounded number of steps. |
| EventQueue.NextRaiseDelivers | src/Raptor2.hpp:340-352 | From any quiet state with a live thread, the next raise of the flag is enough: after a bounded number of the thread's steps everything pushed is delivered, in order. |
| EventQueue.StopEndsDelivery | src/Raptor2.hpp:333-335 | A thread stopped at its look at the active flag delivers nothing more, whatever steps follow. |
| WeightedAverage.WeightedAverageCalculator.Calculate | src/AlgoCalculators/WeightedAverageCalculator.cpp:227-257 | The incremental update keeps every index equal to the batch definition over all trades so far, and leaves other indices alone. |
| WeightedAverage.WeightedAverageCalculator.GetWavg | src/AlgoCalculators/WeightedAverageCalculator.cpp:259-263 | Reading may create an entry but changes nothing that can be read. |
| WeightedAverage.AverageWithin | src/AlgoCalculators/WeightedAverageCalculator.cpp:233-237 | With positive sizes the average lies between the lowest and the highest traded price. |
| WeightedAverage.CountIsNumber | src/AlgoCalculators/WeightedAverageCalculator.cpp:233-244 | The count is the number of trades on the index; with lots of one the volume is, too. |
| WeightedAverage.OrderFree | src/AlgoCalculators/WeightedAverageCalculator.cpp:233-244 | The same trades in any order give the same result. |

## Left out

- Float and double rounding, not-a-number inputs and negative infinity: prices are exact integers or reals, with one explicit infinity in the pricing graph and explicit results for division by zero.
- Signed 32-bit overflow where the source leaves it undefined (seconds to milliseconds beyond 2147483, pushed minutes, volumes).
- The search for the start month's code and its 100-byte label buffer: the generators take the position found, or -1, and labels of any length.
- Parsing of times of day: times are integers, all of one day, and whether the two texts parse is an input. The check's comparison with the current date never rejects and is left out.
- A second timer thread's own trace and later stores: of a thread spawned by a start accepted while the timer is inactive only the entry is a command (`Enter`), which makes the timer active and untriggered.
- Fields without an initial value in the source start as paused false, reset false, event flag false and order-book callback -1.
- Memory behaviour of the monitor's exit block, which reads an element after erasing it: the element is kept for the rest of its visit.
- The position's display fields that `Prepare` also sets: entry-time text, elapsed minutes, seconds text.
- Undefined iteration orders: risk items and visits come in any given order.
- Contents the recovery service writes into an order before it is handed to the algos; only the route and the retransmit rule are modelled.
- Relaxed memory ordering: the queue protocol's steps are interleaved one at a time.
- `EventQueue.DrainDelivers`, `EventQueue.NextRaiseDelivers`: count the thread's own steps; fairness of the scheduler is not modelled.
- Menu, logging, printing, reporting formats, Slack, ZMQ, REST, settings and thread creation.
- `SimpleTimer`, tick rounding, `SpreadPricer`, the trading-hours test and position printing: only easy members would follow.
