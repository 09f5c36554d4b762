# Generative agents, deterministic core

A Dafny model of the deterministic core of GenerativeAgentsCN, a tile-world simulation in which
language-model-driven agents live a day. The model covers what happens between calls to the model:

- the value types: events (`memory/event.py`) and actions (`memory/action.py`);
- the simulation clock (`utils/timer.py`), with time as whole seconds and minutes of the day;
- the map (`maze.py`): tiles with their tagged event sets, the address index, scopes,
  neighbourhoods, the breadth-first path search and `update_obj`;
- the spatial knowledge tree (`memory/spatial.py`) and the daily schedule (`memory/schedule.py`);
- memory bookkeeping: the node store of `storage/index.py` over an abstract id-to-metadata map,
  the per-type recency lists with eviction, expiry clean-up, and the min-max normalised
  three-factor ranking of `memory/associate.py` (in `real`);
- the post-processing of model output (`model/llm_model.py`): line and pattern selection, the
  bounded retry with failsafe, the usage counters, and the pure callbacks of
  `prompt/scratch.py` (clamping, duration padding, revised plans, place-name fallbacks, yes/no);
- the decisions of the agent loop (`agent.py`): event synthesis, the hourly map turned into plans
  and their decomposition, the chat and wait guards, the turn structure and length of a
  conversation, target-tile selection, the tile bookkeeping of `move`, `reflect`'s gate,
  `is_awake` and the poignancy rule.

The language model, the regular-expression engine, the vector search and random choices are
parameters: functions passed in, or nondeterministic choices inside methods (`:|`), so every
property holds whatever they answer. One Dafny module per source file; Python dictionaries with
insertion order become sequences of pairs, and Python's falsy "omitted" argument is the empty
string.

## Model

| member | source | states |
|---|---|---|
| Strings.TruncDiv | generative_agents/modules/agent.py:618 | `int(a / b)` truncates toward zero: the quotient is the largest multiple not above a non-negative dividend, and the smallest not below a negative one |
| Strings.RoundDiv | generative_agents/modules/utils/timer.py:48-50 | `round(a / b)` is the nearest integer, a tie going to the even one |
| Events.NewEvent | generative_agents/modules/memory/event.py:5-21 | the constructor keeps subject, address, describe and emoji as given, and the predicate and object it builds are never empty |
| Events.NewEventDefaults | generative_agents/modules/memory/event.py:17-21 | omitted fields default to predicate "此时", object "空闲", an empty describe, no address and no emoji |
| Events.NewEventKeepsGiven | generative_agents/modules/memory/event.py:14-21 | a non-empty predicate and object are kept exactly as given |
| Events.SameIff | generative_agents/modules/memory/event.py:34-48 | two events are equal exactly when subject, predicate, object and describe agree and the addresses join to the same text |
| Events.SameIgnoresEmoji | generative_agents/modules/memory/event.py:34-43 | the emoji plays no part in equality |
| Events.SameIsEquivalence | generative_agents/modules/memory/event.py:45-48 | event equality is reflexive, symmetric and transitive |
| Events.JoinedAddressesCollide | generative_agents/modules/memory/event.py:41 | two different address lists with the same ":"-join make equal events |
| Events.Update | generative_agents/modules/memory/event.py:50-55 | `update` resets an omitted predicate or object to the defaults, keeps the describe when none is given, and touches no other field |
| Events.UpdateIdempotent | generative_agents/modules/memory/event.py:50-55 | repeating the same update changes nothing more |
| Events.FitTrivial | generative_agents/modules/memory/event.py:60-67 | `fit()` with no arguments holds for every event, and an event fits its own fields |
| Events.FitMonotone | generative_agents/modules/memory/event.py:60-67 | leaving an argument out of `fit` never turns a match into a mismatch |
| Events.AddSubject | generative_agents/modules/memory/event.py:82-84 | after the with-subject step the subject always occurs in the text |
| Events.DropSubject | generative_agents/modules/memory/event.py:86-87 | the without-subject step either leaves the text alone or removes exactly one leading subject and space |
| Events.DescribeWithSubject | generative_agents/modules/memory/event.py:79-88 | `get_describe()` contains the subject, and adds "subject " in front exactly when the subject was absent |
| Events.DescribeWithoutSubject | generative_agents/modules/memory/event.py:79-88 | `get_describe(False)` removes one leading "subject " when present and otherwise returns the text unchanged |
| Events.DescribeFallback | generative_agents/modules/memory/event.py:80 | an empty describe falls back to "predicate object" |
| Events.DropAfterAdd | generative_agents/modules/memory/event.py:79-88 | adding the subject and dropping it again restores a text that did not mention the subject |
| Events.AddAfterDrop | generative_agents/modules/memory/event.py:79-88 | dropping a leading subject and adding it back restores the text when the rest does not mention the subject |
| Events.DescribeRoundTrip | generative_agents/modules/memory/event.py:79-88 | storing the with-subject describe and reading it back without the subject returns the original describe |
| Events.ToDict | generative_agents/modules/memory/event.py:69-77 | `to_dict` produces exactly the six keys subject, predicate, object, describe, address and emoji |
| Events.FromDict | generative_agents/modules/memory/event.py:90-92 | `from_dict` succeeds only on known keys with a subject, and yields an event carrying that subject and non-empty predicate and object |
| Events.DictRoundTrip | generative_agents/modules/memory/event.py:69-92 | `from_dict(to_dict(e))` is `e` for every event the constructor can build |
| Events.FromList | generative_agents/modules/memory/event.py:94-98 | three items give subject, predicate and object with no address; a fourth item is the address, a `None` there the empty one |
| Events.FromListTriple | generative_agents/modules/memory/event.py:94-98 | a triple, a quadruple of strings, or a triple followed by `None` builds the event with exactly those fields |
| Actions.NewActionWindow | generative_agents/modules/memory/action.py:10-42 | a new action runs from its given start, or from the clock's instant when none is given, and at any instant it is finished exactly when it has no duration, no address, or the instant is past `duration` minutes after that start |
| Actions.FinishedIff | generative_agents/modules/memory/action.py:37-42 | an action is finished exactly when it has no duration, no address, or the clock is strictly past its end |
| Actions.NotFinishedAtEnd | generative_agents/modules/memory/action.py:37-42 | an action with an address and a duration is still running at its end instant and finished one second later |
| Actions.FinishedStays | generative_agents/modules/memory/action.py:37-42 | once finished, an action stays finished as the clock advances |
| Actions.ToDict | generative_agents/modules/memory/action.py:44-50 | storing keeps start and duration, and stores an object event exactly when there is one |
| Actions.FromDict | generative_agents/modules/memory/action.py:52-58 | loading fails when the event does not decode, keeps start and duration, and leaves an absent or empty object event absent |
| Actions.DictRoundTrip | generative_agents/modules/memory/action.py:44-58 | loading a stored action gives back the same action, object event or its absence included |
| Clock.DailyDurationRange | generative_agents/modules/utils/timer.py:14-20 | the minute of the day is the instant's whole minutes modulo a day, lies in [0, 1440), and the hour mode is that minute divided by 60 |
| Clock.ParseClock | generative_agents/modules/utils/timer.py:8-11 | parsing "%H:%M", after turning "24:" into "0:", yields a minute of the day in [0, 1440) whenever it succeeds |
| Clock.MidnightAs24 | generative_agents/modules/utils/timer.py:9-10 | "24:00" parses as midnight |
| Clock.ClockRoundTrip | generative_agents/modules/utils/timer.py:8-11 | every zero-padded "%H:%M" text of a minute of the day parses back to that minute |
| Clock.StartFormatIff | generative_agents/modules/utils/timer.py:28 | a start string is read as a full date exactly when it contains a '-' |
| Clock.NewTimer | generative_agents/modules/utils/timer.py:25-31 | no start uses the wall clock; a "%H:%M" start is read as a time of day, a start with '-' by the calendar parser, and a parse failure fails the constructor |
| Clock.ForwardAdds | generative_agents/modules/utils/timer.py:33-34 | two forwards compose into one by the sum, and the minute of the day moves by k modulo a day |
| Clock.DeltaWholeMinutes | generative_agents/modules/utils/timer.py:42-48 | between whole-minute instants the minute delta is the exact difference, negative when the start is later |
| Clock.DailyTimeRoundTrip | generative_agents/modules/utils/timer.py:14-85 | a minute of the day survives `daily_time` followed by `daily_duration` |
| Tiles.TagNamesDistinct | generative_agents/modules/maze.py:55-57 | different counter values give different "e_<n>" dictionary keys, so a new event never overwrites another |
| Tiles.AddEvent | generative_agents/modules/maze.py:52-58 | an event equal to none on the tile is stored under the next tag and the counter advances; otherwise the tile is unchanged |
| Tiles.AddEventKeepsInvariants | generative_agents/modules/maze.py:52-58 | after `add_event` an equal event is present, tags stay increasing and unique, no two events are equal, and the counter grows by at most one |
| Tiles.AddEventIdempotent | generative_agents/modules/maze.py:52-58 | adding the same event twice is the same as adding it once |
| Tiles.NewTile | generative_agents/modules/maze.py:11-30 | a new tile's address is the world followed by the given levels, with its keys, coordinate and collision flag as given, and it satisfies the tile invariants |
| Tiles.NewTileSeed | generative_agents/modules/maze.py:29-30 | a tile with a four-level address starts with exactly one event, "<object> 此时 空闲" at its own address under tag 0; any other tile starts empty |
| Tiles.Partition | generative_agents/modules/maze.py:62-66 | the events split into those kept and those matching the subject or the given event, in dictionary order, with nothing lost |
| Tiles.RemoveEventsExact | generative_agents/modules/maze.py:60-69 | exactly the events of the given subject or equal to the given event are removed and returned; every other event stays under its tag and the counter is kept |
| Tiles.RemoveEventsIdempotent | generative_agents/modules/maze.py:60-69 | removing again with the same arguments removes nothing |
| Tiles.UpdateEvents | generative_agents/modules/maze.py:71-77 | in "subject" mode every slot holding an event of the new event's subject now holds the new event, all other slots and all tags are kept, and the returned tags are exactly the rewritten ones |
| Tiles.UpdateEventsKeepsValid | generative_agents/modules/maze.py:71-77 | updating never inserts, so the tile invariant is kept |
| Tiles.UpdateEventsIdempotent | generative_agents/modules/maze.py:71-77 | updating twice with the same event changes nothing more |
| Tiles.GetAddress | generative_agents/modules/maze.py:82-89 | `get_address` succeeds exactly for a known level, or for the deepest level when the tile has level names, and returns a prefix of the address |
| Tiles.GetAddressOfOwnLevel | generative_agents/modules/maze.py:79-89 | for a level the tile has, `get_address` is the address down to and including that level |
| Grid.TileAt | generative_agents/modules/maze.py:163-164 | `tile_at` finds a tile exactly when both indices are within Python's range, negative indices counting from the end, and an in-grid coordinate reads `tiles[y][x]` |
| Grid.Place | generative_agents/modules/maze.py:122-124 | placing the configured tiles succeeds exactly when every configured coordinate indexes the grid, and keeps its shape |
| Grid.LastLanding | generative_agents/modules/maze.py:122-124 | finds the last configured tile that lands on a cell, and says when none does |
| Grid.PlaceLastWins | generative_agents/modules/maze.py:122-124 | every cell holds the tile of the last configuration entry that lands on it, or its default tile when none does |
| Grid.BuildIndex | generative_agents/modules/maze.py:127-131 | `address_tiles` maps exactly the addresses some tile carries, each to exactly the set of tiles that carry it |
| Grid.IndexRow | generative_agents/modules/maze.py:128-131 | one pass of the row loop indexes exactly the cells of all rows up to and including this one |
| Grid.IndexCell | generative_agents/modules/maze.py:129-131 | one pass of the cell loop indexes exactly the cells visited so far |
| Grid.NewMaze | generative_agents/modules/maze.py:110-133 | the constructor fails exactly when a configured coordinate is outside the grid; otherwise it has the given size, the placed tiles and an exact address index |
| Grid.GetAddressTiles | generative_agents/modules/maze.py:204-207 | an indexed address gives exactly the tiles that carry it; an unknown one gives nothing |
| Grid.UpdateObj | generative_agents/modules/maze.py:166-176 | when the tile belongs to the event's object and that object is indexed, exactly the object's tiles get the event; otherwise the maze is unchanged; no tile's address ever changes |
| Grid.UpdateObjKeepsIndex | generative_agents/modules/maze.py:166-176 | `update_obj` keeps the maze well formed, with its index still exact |
| Grid.SameAddressesKeepValid | generative_agents/modules/maze.py:127-131 | a maze that differs from a well-formed one only in tile events is well formed |
| Grid.Around | generative_agents/modules/maze.py:193-202 | `get_around` reports the four neighbours left, right, up, down; without the collision filter it never fails; with it, it fails exactly when a neighbour is off Python's index range, and otherwise keeps exactly the neighbours without collision |
| Grid.KeepWalkable | generative_agents/modules/maze.py:200-201 | filtering keeps exactly the neighbours without collision |
| Grid.AroundOrder | generative_agents/modules/maze.py:194-199 | away from the border the neighbours come left, right, up, down, all inside the grid |
| Grid.Product | generative_agents/modules/maze.py:189 | `product(range, range)` holds exactly the pairs of the two ranges, and as many as the ranges' sizes multiplied |
| Grid.GetScope | generative_agents/modules/maze.py:178-191 | any mode but "box" sees nothing, and every cell seen is inside the grid |
| Grid.ScopeIsClippedBox | generative_agents/modules/maze.py:181-189 | a cell is seen exactly when it is in the grid and within the vision radius on both axes |
| Grid.ScopeColumnMajor | generative_agents/modules/maze.py:189 | a box wholly inside the grid has (2r+1)² cells and starts with its left column, top to bottom |
| PathFinding.FindPath | generative_agents/modules/maze.py:135-161 | `find_path` gives `[dst]` when source and destination coincide; it raises exactly when looking around the source steps off Python's index range; a destination no walk reaches yields no path; otherwise the path ends at the destination, moves between neighbours over interior non-collision cells, and is a shortest walk from the source (from a collision source it starts next to it and is one cell shorter than any walk) |
| PathFinding.Explore | generative_agents/modules/maze.py:136-153 | the search phase marks the source with 1 and every reached cell with its walk length; it stops with the destination marked, or with an empty frontier exactly when no walk reaches it, or raises exactly when the source's neighbourhood is off the index range |
| PathFinding.Round | generative_agents/modules/maze.py:141-153 | one round of the `while` loop marks exactly the unreached open neighbours of the frontier with the next step and returns them as the new frontier |
| PathFinding.Scan | generative_agents/modules/maze.py:143-152 | looking around one frontier cell marks all its unreached open neighbours, leaving every earlier mark in place |
| PathFinding.Visit | generative_agents/modules/maze.py:144-152 | a reported neighbour that is interior and unreached gets the next step and joins the frontier; anything else is skipped |
| PathFinding.WalkBack | generative_agents/modules/maze.py:154-161 | the walk back from the destination follows neighbours with decreasing steps and, reversed, is a path from the source (or from next to a collision source) to the destination with as many cells as the destination's step |
| PathFinding.FirstWithStep | generative_agents/modules/maze.py:156-159 | the inner `for … break` finds a reported neighbour with the wanted step, and finds none only when no reported neighbour has it |
| PathFinding.AdjacentIff | generative_agents/modules/maze.py:193-199 | the four cells `get_around` looks at are exactly the 4-neighbours, and being neighbours is symmetric |
| PathFinding.OpenAround | generative_agents/modules/maze.py:145-149 | the neighbours of a cell the search may step onto are all on the grid, so looking around it never raises |
| PathFinding.AroundComplete | generative_agents/modules/maze.py:193-202 | `get_around` reports every on-grid neighbour without collision |
| PathFinding.AroundSound | generative_agents/modules/maze.py:193-202 | `get_around` reports only neighbours, none of them an on-grid collision tile |
| PathFinding.NoWalkWhenExhausted | generative_agents/modules/maze.py:141-153 | when a round adds nothing and the destination is unmarked, no walk from the source reaches it (the source's loop would never end) |
| PathFinding.WalkLowerBound | generative_agents/modules/maze.py:141-154 | no walk reaches the destination in fewer cells than its mark, so the path built from the mark is a shortest one |
| PathFinding.RoundProgress | generative_agents/modules/maze.py:141-153 | a round that marks nothing leaves the marked cells as they were, and otherwise strictly shrinks the unmarked ones |
| Spatial.AddLeaf | generative_agents/modules/memory/spatial.py:19-28 | an address shorter than two names leaves the tree alone; a longer one, when it succeeds, keeps the root a dictionary |
| Spatial.GetLeaves | generative_agents/modules/memory/spatial.py:40-50 | at the end of the path a dictionary gives exactly its keys and a list gives itself; a missing first name gives `[]` |
| Spatial.AddLeafPlaces | generative_agents/modules/memory/spatial.py:19-28 | after `add_leaf` the last name is among the leaves listed at the path of the names before it |
| Spatial.PlacesLast | generative_agents/modules/memory/spatial.py:21-24 | a two-name address puts its second name in the list under its first |
| Spatial.AddLeafKeeps | generative_agents/modules/memory/spatial.py:19-28 | whatever `get_leaves` listed at any path before `add_leaf`, it still lists after: the tree only grows |
| Spatial.OtherKeysKept | generative_agents/modules/memory/spatial.py:20-26 | `add_leaf` changes only the entry of the first name |
| Spatial.FirstKeyPresent | generative_agents/modules/memory/spatial.py:22-26 | after `add_leaf` the first name is a key of the root |
| Spatial.AddLeafIdempotent | generative_agents/modules/memory/spatial.py:19-28 | adding the same address twice is the same as adding it once |
| Spatial.AddLeafNoRepeats | generative_agents/modules/memory/spatial.py:23-24 | `add_leaf` never puts a second copy of a name into a leaf list |
| Spatial.FirstHit | generative_agents/modules/memory/spatial.py:32-35 | finds the first alias, in table order, whose name occurs in the hint, or reports that none does |
| Spatial.FindAddressFirst | generative_agents/modules/memory/spatial.py:30-37 | `find_address` gives the path of the first alias the hint mentions |
| Spatial.FindAddressMiss | generative_agents/modules/memory/spatial.py:30-37 | `find_address` gives `[]` when the hint mentions no alias |
| Spatial.SleepAliasFound | generative_agents/modules/memory/spatial.py:12-37 | after construction a hint that mentions "睡觉" and no configured alias finds the bed in the living area |
| Schedules.FreshSchedule | generative_agents/modules/memory/schedule.py:7-14 | a schedule created without plans has no current plan and is not scheduled for the day, takes diversity 5 and 5 tries when those are not given, and the first plan added to it starts at midnight numbered 0 |
| Schedules.AddPlan | generative_agents/modules/memory/schedule.py:34-49 | `add_plan` appends one plan, numbered by its position, starting at 0 for the first plan and where the last one ends otherwise, and leaves the earlier plans alone |
| Schedules.AddPlanContiguous | generative_agents/modules/memory/schedule.py:34-49 | plans grown by `add_plan` stay numbered by position, start at midnight and follow each other without gaps |
| Schedules.StartIsElapsed | generative_agents/modules/memory/schedule.py:35-38 | in such a schedule each plan starts after the total length of the plans before it |
| Schedules.FirstOpen | generative_agents/modules/memory/schedule.py:53-55 | finds the first plan not yet ended at the current minute, or reports that all have ended |
| Schedules.CurrentPlan | generative_agents/modules/memory/schedule.py:51-62 | `current_plan` fails exactly on an empty schedule, and otherwise picks a plan of the schedule and, when it answers a sub-plan, one of that plan's sub-plans |
| Schedules.CurrentPlanFirst | generative_agents/modules/memory/schedule.py:51-62 | the plan picked is the first not yet ended, and the sub-plan the first of it not yet ended, else the plan itself; when everything has ended it is the last plan |
| Schedules.CurrentPlanContains | generative_agents/modules/memory/schedule.py:51-62 | in a gap-free schedule, any minute before its end falls within the plan `current_plan` picks |
| Schedules.PlanInstants | generative_agents/modules/memory/schedule.py:64-71 | formatted plan stamps are instants of today exactly 60·duration seconds apart |
| Schedules.PlanInstantsRoundTrip | generative_agents/modules/memory/schedule.py:64-70 | a plan stamp read back as a time of day is the plan's own start minute |
| Schedules.DecomposeIff | generative_agents/modules/memory/schedule.py:73-90 | `decompose` says yes exactly when the plan has no sub-plans and its text does not mention sleep or bed both in English and in Chinese; the checks from line 86 on are never reached |
| Schedules.ChineseSleepIsSplit | generative_agents/modules/memory/schedule.py:78-79 | a plan described only as "睡觉", with no sub-plans, is split like any other |
| Schedules.ScheduledSameDay | generative_agents/modules/memory/schedule.py:92-95 | a schedule created earlier on the same calendar day is scheduled |
| NodeStore.GeneratedIdInjective | generative_agents/modules/storage/index.py:58 | different counter values make different "node_<n>" ids |
| NodeStore.Upsert | generative_agents/modules/storage/index.py:67 | inserting a node stores it; a stored id is replaced in place, a new id is appended, and no other node is lost or added |
| NodeStore.AddNode | generative_agents/modules/storage/index.py:45-68 | `add_node` uses the given id, or "node_" and the counter when none is given; the counter grows by exactly one either way; the new node is stored and nothing else is added |
| NodeStore.GeneratedIdIsNew | generative_agents/modules/storage/index.py:17-59 | while the stored generated ids lie below the counter, a generated id is not in use yet, so the store keeps distinct ids and gains exactly one node |
| NodeStore.RemoveNodes | generative_agents/modules/storage/index.py:87-88 | `remove_nodes` keeps exactly the stored nodes whose id is not listed, and leaves the counter alone |
| NodeStore.StaleIds | generative_agents/modules/storage/index.py:92-96 | the ids collected are ids of out-of-date nodes (created after now or expired before now), and every out-of-date node's id is among them |
| NodeStore.CleanupExact | generative_agents/modules/storage/index.py:90-98 | `cleanup` keeps exactly the nodes that are not out of date and reports exactly the ids of those that are |
| NodeStore.StaleIdsExact | generative_agents/modules/storage/index.py:92-96 | with distinct ids, a stored node's id is reported exactly when the node is out of date |
| NodeStore.CleanupIdempotent | generative_agents/modules/storage/index.py:90-98 | a second `cleanup` at the same instant reports nothing and changes nothing |
| NodeStore.NodesNumCountsIds | generative_agents/modules/storage/index.py:153-154 | `nodes_num` is the number of different ids stored |
| Ranking.NormalizeFlat | generative_agents/modules/memory/associate.py:115-119 | when all values are equal, every value becomes half the factor |
| Ranking.NormalizeSpread | generative_agents/modules/memory/associate.py:115-120 | otherwise every value lands in [0, factor], the minimum at 0, the maximum at the factor, and the order of the values is kept |
| Ranking.NormalizeBounded | generative_agents/modules/memory/associate.py:115-120 | with a non-negative factor every normalised value lies in [0, factor] |
| Ranking.DecaysDecrease | generative_agents/modules/memory/associate.py:94 | with a decay strictly between 0 and 1 each recency weight is strictly below the one before |
| Ranking.RecencyEnds | generative_agents/modules/memory/associate.py:92-95 | after normalising, the most recently accessed candidate gets the full recency weight and the least recent gets 0 |
| Ranking.SortDescCorrect | generative_agents/modules/memory/associate.py:88-109 | `sorted(…, reverse=True)` orders by non-increasing key, is a permutation, and keeps the input order among equal keys |
| Ranking.LastIndexOf | generative_agents/modules/memory/associate.py:102-107 | finds the last candidate with a given id, whose total the `final_scores` dictionary keeps |
| Ranking.Scored | generative_agents/modules/memory/associate.py:102-109 | every candidate, in the access order, is paired with its final score |
| Ranking.TotalsBounded | generative_agents/modules/memory/associate.py:92-107 | with non-negative weights every final score lies between 0 and the sum of the three weights |
| Ranking.RankedOrder | generative_agents/modules/memory/associate.py:88-109 | candidates are first ordered by most recent access and then by non-increasing final score, each order a permutation of the candidates |
| Ranking.Stamp | generative_agents/modules/memory/associate.py:111-112 | every kept candidate has its access time set to now and nothing else changed |
| Ranking.RetrieveTakesFirst | generative_agents/modules/memory/associate.py:82-113 | `_retrieve` returns the first `retrieve_max` candidates of the final order (all of them when fewer), each stamped with now |
| Associative.ConceptDefaults | generative_agents/modules/memory/associate.py:34-39 | left unspecified, a concept is created now, expires thirty days after creation, and was last accessed at creation |
| Associative.Without | generative_agents/modules/memory/associate.py:163 | a list without the removed ids keeps exactly the ids not removed |
| Associative.WithoutSplits | generative_agents/modules/memory/associate.py:163 | removal keeps the order of the survivors: removing from a concatenation removes from each part |
| Associative.CleanupIndex | generative_agents/modules/memory/associate.py:160-165 | `cleanup_index` cleans the store and keeps the same kinds of memory |
| Associative.CleanupIndexLists | generative_agents/modules/memory/associate.py:160-165 | after cleanup each kind's list is its old list without the ids the store removed, survivors in order |
| Associative.Admit | generative_agents/modules/memory/associate.py:189 | the node is stored under a generated id, and every other stored node stays |
| Associative.AddNode | generative_agents/modules/memory/associate.py:167-195 | `add_node` succeeds exactly for a kind of memory the dictionary has (an unknown kind raises) |
| Associative.AddNodeRecords | generative_agents/modules/memory/associate.py:176-191 | the new concept was accessed at its creation (now by default), expires thirty days later by default, has a generated id, and the other kinds' lists are unchanged |
| Associative.AddNodeFront | generative_agents/modules/memory/associate.py:189-191 | below the bound, or with no positive bound, the new id is put in front of its kind's list and the store just gains the node |
| Associative.AddNodeEvicts | generative_agents/modules/memory/associate.py:190-194 | when the list reaches a positive `max_memory` it is cut to its newest `max_memory - 1` ids, and exactly the ids from position `max_memory` on leave the store |
| Associative.EvictionOrphan | generative_agents/modules/memory/associate.py:192-194 | the id at position `max_memory - 1` leaves the list but stays in the store |
| Associative.RetrieveNodes | generative_agents/modules/memory/associate.py:203-213 | `_retrieve_nodes` fails for an unknown kind of memory |
| Associative.RetrieveNodesUntexted | generative_agents/modules/memory/associate.py:211-213 | without a text the answer is the first `retention` ids of the kind's list in list order, and it fails exactly when one of them is not stored |
| Associative.RetrieveChats | generative_agents/modules/memory/associate.py:221-223 | `retrieve_chats` with a name answers the first `retention` ids the search for "对话 " and the name returns over the chat ids; without a name it answers the first `retention` chat ids and fails exactly when one listed id is no longer stored; without a chat list it fails |
| Associative.RetrieveFocus | generative_agents/modules/memory/associate.py:225-248 | `retrieve_focus` fails exactly when the event or thought list is missing |
| Associative.ByText | generative_agents/modules/memory/associate.py:241-242 | without `reduce_all` every focus text, and nothing else, gets an entry, and a text gets the nodes of its last occurrence in the focus list |
| Associative.RetrieveFocusDedups | generative_agents/modules/memory/associate.py:230-244 | with `reduce_all` the answer has one node per retrieved id, the one retrieved last under that id, searching over the event ids followed by the thought ids |
| LlmOutput.LineMatchFirst | generative_agents/modules/model/llm_model.py:366-375 | a line yields a result exactly when some pattern matches it, and the result is the first match of the first pattern that matches |
| LlmOutput.ResultsAppend | generative_agents/modules/model/llm_model.py:366-375 | results follow the order of the lines, at most one per line |
| LlmOutput.EmptyPatternTakesEveryLine | generative_agents/modules/model/llm_model.py:369-375 | with an empty pattern in the list every line yields exactly one result |
| LlmOutput.Pick | generative_agents/modules/model/llm_model.py:376-384 | picking fails exactly when there are no results and either emptiness is not ignored or the mode needs an element |
| LlmOutput.ParseOutput | generative_agents/modules/model/llm_model.py:362-384 | `parse_llm_output` fails exactly when no line yields a result and either emptiness is not ignored or the mode is match_first or match_last |
| LlmOutput.ParseModes | generative_agents/modules/model/llm_model.py:378-384 | with results, match_first gives the first, match_last the last, match_all all of them, and any other mode `None` |
| LlmOutput.FirstAccepted | generative_agents/modules/model/llm_model.py:62-78 | finds the first attempt whose reply the callback accepts, or reports that none of the attempts does |
| LlmOutput.AccountBooked | generative_agents/modules/model/llm_model.py:61-81 | per call exactly one success or one failure is booked, and one request per reply, under "total" and under the caller, and both keys exist afterwards |
| LlmOutput.BookGet | generative_agents/modules/model/llm_model.py:66-81 | one booking adds the counts to a key once for "total" and once for the caller |
| LlmOutput.Attempts | generative_agents/modules/model/llm_model.py:62-78 | the retry loop makes at most `retry` attempts and stops right after the first accepted one, counting the replies it got |
| LlmOutput.Completion | generative_agents/modules/model/llm_model.py:51-82 | `completion` makes at most `retry` attempts, stops at the first whose callback result is not `None` (an exception counts as `None`), returns that result unless it is falsy and the failsafe otherwise, and books the counters |
| LlmOutput.CreateModel | generative_agents/modules/model/llm_model.py:353-359 | `create_llm_model` picks the first registered class that supports the model and can be created, or none when no class does |
| Callbacks.AllGroups | generative_agents/modules/prompt/scratch.py:131-135 | the `match_all` parses of the callbacks give groups exactly when the parse lists its results, one group list per result |
| Callbacks.WakeUp | generative_agents/modules/prompt/scratch.py:100-109 | the wake-up callback never answers `None`, and any hour it accepts is at most 11 |
| Callbacks.Clamped | generative_agents/modules/prompt/scratch.py:106-109 | `int(...)` either raises or gives an hour, which is then taken no later than 11 |
| Callbacks.WakeUpReadsHour | generative_agents/modules/prompt/scratch.py:100-111 | an hour written in digits is accepted as it is up to 11, and as 11 above that |
| Callbacks.HourlySeed | generative_agents/modules/prompt/scratch.py:147-151 | the hourly lines count up one hour at a time, labelled "睡觉" exactly before the wake-up hour and "<活动>" after it, ending at 23 |
| Callbacks.HourlySeedDay | generative_agents/modules/prompt/scratch.py:147-151 | for a wake-up hour of the day there are 24 lines, hour i asleep exactly when i is before the wake-up hour |
| Callbacks.HourlySeedOutOfRange | generative_agents/modules/prompt/scratch.py:147-151 | the hour is not checked: past 24 there are that many lines, all asleep, and below 0 the activity lines start at the negative hour |
| Callbacks.Daily | generative_agents/modules/prompt/scratch.py:184-193 | the daily callback never answers `None`; it accepts only with at least five matches, each time a key once |
| Callbacks.DailyLastWins | generative_agents/modules/prompt/scratch.py:193 | each time maps to the activity given last for it |
| Callbacks.Padded | generative_agents/modules/prompt/scratch.py:226-229 | a shortfall is appended as one more entry under the plan's own description, so the total then equals the plan's duration; an excess is kept as it is |
| Callbacks.DecomposeAnswer | generative_agents/modules/prompt/scratch.py:221-230 | the decompose callback never answers `None`, and what it accepts lasts at least the plan's duration |
| Callbacks.DecomposeKeepsParsed | generative_agents/modules/prompt/scratch.py:221-230 | the parsed sub-plans are kept in order and never cut; at most one entry is added, exactly when they fall short |
| Callbacks.DecomposeFailsafe | generative_agents/modules/prompt/scratch.py:232 | the decompose failsafe is a list of ten-minute slots under the plan's description |
| Callbacks.DecomposeFailsafeCovers | generative_agents/modules/prompt/scratch.py:232 | there are duration/10 slots, covering the plan up to less than ten minutes |
| Callbacks.Increment | generative_agents/modules/prompt/scratch.py:207 | the granularity offered is five minutes per full hundred minutes of the plan, at least five |
| Callbacks.ContextIndices | generative_agents/modules/prompt/scratch.py:202-204 | the plans shown are exactly the neighbours of the plan, itself included, that exist in the schedule, in order |
| Callbacks.EndedBy | generative_agents/modules/prompt/scratch.py:254-256 | counts the leading sub-plans over by the action's start |
| Callbacks.RevisedSplits | generative_agents/modules/prompt/scratch.py:252-261 | for sub-plans one after the other, the revision keeps those over by the action's start unchanged, then cuts the one running at it off at the start and follows it with the action, and drops the rest |
| Callbacks.ChainedAfter | generative_agents/modules/prompt/scratch.py:257-261 | sub-plans after the one running at the action's start contribute nothing |
| Callbacks.SubPlan | generative_agents/modules/prompt/scratch.py:287-296 | a parsed line becomes a sub-plan numbered by position, starting at its first time and ending at its second |
| Callbacks.RescheduledRoundTrip | generative_agents/modules/prompt/scratch.py:285-297 | sub-plans written out as "%H:%M" times are read back by the revise callback as the same sub-plans |
| Callbacks.ArenaOwnersFirst | generative_agents/modules/prompt/scratch.py:320-325 | the arena dictionary maps each arena to the first sector that lists it |
| Callbacks.FirstPrefix | generative_agents/modules/prompt/scratch.py:340-342 | finds the first sector the answer starts with, or reports that none does |
| Callbacks.ResolveSectorOrder | generative_agents/modules/prompt/scratch.py:328-343 | the sector callback tries an exact sector, then the first sector owning a named arena, then the first sector the answer starts with, then the failsafe |
| Callbacks.SectorAnswer | generative_agents/modules/prompt/scratch.py:328-343 | the sector callback never answers `None`, and what it accepts is a sector or the failsafe |
| Callbacks.ArenaAnswer | generative_agents/modules/prompt/scratch.py:363-371 | the arena callback accepts an arena of the list, the last match, or the failsafe |
| Callbacks.ObjectAnswer | generative_agents/modules/prompt/scratch.py:388-397 | the object callback accepts an object of the list, the last match, or the failsafe |
| Callbacks.YesNoMarkers | generative_agents/modules/prompt/scratch.py:516-541 | the yes/no callbacks say no exactly when "No", "no", "否" or "不" occurs in the answer |
| Callbacks.WaitMarker | generative_agents/modules/prompt/scratch.py:615-616 | the wait callback says yes exactly when "A" occurs in the answer |
| Callbacks.AcceptingSettlesOnFirstReply | generative_agents/modules/model/llm_model.py:62-78 | a callback that accepts every reply settles on the first reply there is |
| Callbacks.DecisionFromFirstReply | generative_agents/modules/prompt/scratch.py:516-521 | a decision is read from the first reply there is |
| DayPlan.HourLabelInjective | generative_agents/modules/agent.py:215 | different hours have different "H:00" labels |
| DayPlan.HourLabelParses | generative_agents/modules/agent.py:215-230 | the label of an hour of the day reads back, as "%H:%M", as the minute that hour starts |
| DayPlan.SeedLastKeyed | generative_agents/modules/agent.py:215-219 | an hour is seeded exactly when it comes before waking, as Python slices the 24 hours |
| DayPlan.SeededHours | generative_agents/modules/agent.py:219-223 | after `update`, an hour the answer names takes the answer's last value for it; any other hour stays asleep if it was seeded and is absent otherwise |
| DayPlan.UpdateLookup | generative_agents/modules/agent.py:220-222 | `dict.update`: a key the update names takes its last value there, and any other keeps its old value |
| DayPlan.FirstStop | generative_agents/modules/agent.py:219-225 | the `for … break` loop stops at the first try that satisfies the test, or at the last allowed try |
| DayPlan.HourlyMapTries | generative_agents/modules/agent.py:218-225 | the kept hourly dictionary is that of the first try with enough different activities, or of the last try when none has |
| DayPlan.ToMinutes | generative_agents/modules/agent.py:227-230 | converting the keys fails exactly when one of them is unreadable, and gives each minute once, within the day |
| DayPlan.ToMinutesLastWins | generative_agents/modules/agent.py:230 | a minute takes the value of the last key that reads as it, so "7:00" and "07:00" collide |
| DayPlan.Insert | generative_agents/modules/agent.py:231 | insertion into a sorted list keeps it sorted and adds exactly the one element |
| DayPlan.Sort | generative_agents/modules/agent.py:231 | `sorted` gives an ascending permutation of the keys |
| DayPlan.SortedKeys | generative_agents/modules/agent.py:230-231 | the sorted starts are exactly the dictionary's minutes, each once, strictly increasing |
| DayPlan.AddPlansLaid | generative_agents/modules/agent.py:232-234 | adding the plans one by one appends exactly the laid-out plans, each numbered by its position and starting where the one before ends |
| DayPlan.GapsTelescope | generative_agents/modules/agent.py:232-234 | the gaps before a start add up to its distance from the earliest start |
| DayPlan.MakeSchedule | generative_agents/modules/agent.py:212-234 | building the plans fails exactly when an hourly key is unreadable; otherwise the creation day is stamped and the old plans stay in front |
| DayPlan.LayoutPlanAt | generative_agents/modules/agent.py:231-234 | the i-th plan added carries the activity of the i-th smallest minute and lasts until the next minute (or midnight) |
| DayPlan.LayoutStartAt | generative_agents/modules/agent.py:231-234 | the i-th plan added starts as far after the schedule's end as its minute is after the earliest |
| DayPlan.LayoutEnds | generative_agents/modules/agent.py:231-234 | the added plans last 1440 minus the earliest minute in all |
| DayPlan.MakeScheduleContiguous | generative_agents/modules/agent.py:231-234 | plans added to a gap-free schedule keep it gap-free |
| DayPlan.SubPlans | generative_agents/modules/agent.py:259-268 | each parsed pair becomes a sub-plan numbered by its position, with the pair's description and duration and no sub-plans of its own |
| DayPlan.DecomposePlan | generative_agents/modules/agent.py:269 | setting the sub-plans leaves the plan's number, description, start and duration alone |
| DayPlan.SubPlansCumulative | generative_agents/modules/agent.py:259-268 | the sub-plans run back to back from the plan's start and end after the sum of their durations |
| DayPlan.DecomposedChained | generative_agents/modules/agent.py:259-269 | with non-negative durations the sub-plans follow each other, and an accepted decomposition covers the whole plan |
| DayPlan.SameFramesKeepCurrent | generative_agents/modules/memory/schedule.py:51-62 | changing only sub-plans keeps the same plan current and a gap-free schedule gap-free |
| DayPlan.WithSubPlans | generative_agents/modules/agent.py:269-279 | only the current plan's sub-plans are replaced; an empty schedule raises |
| DayPlan.DecomposeCurrent | generative_agents/modules/agent.py:256-270 | the current plan gets the model's sub-plans exactly when `decompose` allows it, and nothing else changes |
| DayPlan.DecomposeCurrentSettles | generative_agents/modules/agent.py:256-270 | once the current plan has sub-plans, asking again at the same minute changes nothing, and the schedule stays gap-free |
| DayPlan.ReviseSchedule | generative_agents/modules/agent.py:272-279 | `revise_schedule` takes up the action, and replaces the current plan's sub-plans exactly when it has some; an empty schedule raises |
| DayPlan.ReviseKeepsFrames | generative_agents/modules/agent.py:272-279 | revising keeps the same plan current and the schedule gap-free, and leaves a plan that may still be decomposed untouched |
| AgentLoop.DropLead | generative_agents/modules/agent.py:336-339 | dropping a leading text removes exactly that text when the string starts with it, and leaves the string alone otherwise |
| AgentLoop.MakeEvent | generative_agents/modules/agent.py:328-342 | `make_event` keeps the subject, the address and the original text as the description, uses the predicate "此时", and gives an object that is never empty and holds none of ( ) < > |
| AgentLoop.MakeEventObject | generative_agents/modules/agent.py:334-342 | the object is the text after "subject此时" (and after one more subject if the text repeats it), else the text after the subject, else the whole text, and "空闲" when that is empty |
| AgentLoop.MakeEventIdle | generative_agents/modules/agent.py:328-342 | a text that says only "subject此时" makes an idle event, when the name has no brackets in it |
| AgentLoop.ThoughtPoignancy | generative_agents/modules/agent.py:641-665 | a thought made by `make_event` weighs 1 exactly when its object came out idle, and is rated as an event otherwise |
| AgentLoop.IsAwake | generative_agents/modules/agent.py:673-680 | an agent with no action is awake |
| AgentLoop.AsleepOnlyBySleepEvents | generative_agents/modules/agent.py:673-680 | an agent sleeps exactly when its action's event fits "<name> is sleeping" or "<name> 正在 睡觉", so an event made by `make_event` never puts it to sleep |
| AgentLoop.GoingToSleep | generative_agents/modules/agent.py:673-680 | an action whose event is "<name> 正在 睡觉" makes the agent asleep |
| AgentLoop.Reflect | generative_agents/modules/agent.py:344-393 | `reflect` acts exactly when the accumulated poignancy reaches the threshold and there are memories to reflect on |
| AgentLoop.ReflectResets | generative_agents/modules/agent.py:392-393 | reflecting sets poignancy to 0 and empties the chats, and not reflecting changes nothing |
| AgentLoop.ReflectSettles | generative_agents/modules/agent.py:355-393 | with a positive threshold a second reflection right after the first does nothing |
| Conversation.ChatRefusedIff | generative_agents/modules/agent.py:496-536 | a chat is refused exactly when a side has no schedule yet, it is 23:00 or later, a side has no place, is asleep or has not started, the other is on its way, a side is already talking, the first chat memory that `retrieve_chats` answers about the other (its best search match, not necessarily the latest) was made less than an hour ago, or the model says no |
| Conversation.Converse | generative_agents/modules/agent.py:542-583 | the conversation loop: every line is its speaker's answer to the lines before it, the initiator speaking first in each round; at least one full round and at most 2·chat_iter lines when there are rounds at all; the talk never goes on past a stop, and ends early only because of one |
| Conversation.Opening | generative_agents/modules/agent.py:543-563 | the initiator's half of a round: from the second round on, a repeating line ends the talk before it is said, and the initiator may then close the talk |
| Conversation.Reply | generative_agents/modules/agent.py:565-583 | the responder's half of a round: from the second round on, a repeating line ends the talk before it is said; otherwise the line is said and the responder may close the talk |
| Conversation.SpeakerParity | generative_agents/modules/agent.py:542-583 | in each round the initiator speaks first and the responder second |
| Conversation.Append | generative_agents/modules/agent.py:556-576 | one more line, by whoever's turn it is, keeps the transcript as said and not stopped early |
| Conversation.ChatDuration | generative_agents/modules/agent.py:598 | the chat lasts one minute for every full 240 characters said, rounded down |
| Conversation.ChatDurationMonotone | generative_agents/modules/agent.py:598 | talking longer never makes the chat shorter |
| Conversation.ScheduleChat | generative_agents/modules/agent.py:629-639 | `schedule_chat` appends the transcript to the agent's chats and gives it the action "<name> 对话 <other>" described by the summary, at the given address |
| Conversation.ScheduleChatRevised | generative_agents/modules/agent.py:629-639 | with its `revise_schedule` call, `schedule_chat` raises exactly on an empty day plan; otherwise the agent gets the chat action, the current plan takes the revised sub-plans when it has sub-plans, and every other plan and every start and duration stays |
| Conversation.ChatShared | generative_agents/modules/agent.py:597-639 | after a chat both agents hold the same summary, start and end, each talking to the other, and neither may start another chat while talking |
| Conversation.WaitOther | generative_agents/modules/agent.py:605-627 | `_wait_other` always answers falsy; the agent waits exactly when nothing is skipped, it is on its way, its target is the other's tile and the model agrees, and then its action is "waiting to start" from now for the other's remaining whole minutes |
| Conversation.WaitOtherRevised | generative_agents/modules/agent.py:605-627 | with its `revise_schedule` call, `_wait_other` leaves the agent and its day plan as they were when it does not wait; when it waits it takes the waiting action, raises on an empty day plan, and otherwise gives the current plan the revised sub-plans when it has sub-plans and changes no other plan |
| Conversation.WaitUntilOther | generative_agents/modules/agent.py:616-618 | the wait ends within the last minute before the other's action does, and is finished at once when the other's action is already over |
| Movement.Targets | generative_agents/modules/agent.py:395-408 | a path in hand is kept; the agent stays when it is at its event's address, when it waits, or when it already stands on a target; it raises when its tile has no address or the address names a missing agent or an unknown place; otherwise the targets are the free tiles around the other agent or exactly the tiles of the address, never its own tile |
| Movement.Eligible | generative_agents/modules/agent.py:411-419 | a target is kept exactly when it is not the agent's own tile and holds no event of any agent |
| Movement.List | generative_agents/modules/agent.py:406-419 | iterating over an address's set of tiles visits each tile exactly once |
| Movement.Sample | generative_agents/modules/agent.py:422-423 | `random.sample` draws the asked number of entries without replacement |
| Movement.Draw | generative_agents/modules/agent.py:420-423 | between one and four targets are searched: all of them when there are fewer than four, otherwise four drawn without replacement |
| Movement.Nearest | generative_agents/modules/agent.py:425 | `min(..., key=len)` picks a route no longer than any other, and the first of those |
| Movement.FindPath | generative_agents/modules/agent.py:395-426 | `find_path` keeps the current path, stays put, fails whenever choosing targets raises (and otherwise only where a route search cannot proceed), or heads along the first shortest route, without its first cell, to one of at most four eligible targets, every target considered when there are fewer than four; no walk to a considered target is shorter |
| Movement.Pursue | generative_agents/modules/agent.py:411-426 | once there are targets: stay when every one is ignored, otherwise head along the shortest route to a considered target, or fail when a search cannot end |
| Movement.SearchRoutes | generative_agents/modules/agent.py:424 | a route is searched to every considered target, in order, each a walk from the agent ending at that target and no longer than any other such walk |
| Movement.Choose | generative_agents/modules/agent.py:425-426 | the route returned is the first of least length among those searched, with its first cell dropped |
| Movement.IdleObject | generative_agents/modules/agent.py:177-181 | a game object an agent leaves becomes the idle event of that object, at the object's address |
| Movement.Leave | generative_agents/modules/agent.py:174-181 | leaving a tile changes only events, and removes every event of the agent from it |
| Movement.Vacated | generative_agents/modules/maze.py:60-69 | `remove_events(subject=name)` leaves no event of that subject on the tile, and changes nothing else about it |
| Movement.UpdateKeepsAbsent | generative_agents/modules/maze.py:71-77 | rewriting events to one of another subject never brings an absent subject back |
| Movement.Arrive | generative_agents/modules/agent.py:163-172 | reaching a tile changes only events, and without an action nothing changes |
| Movement.Move | generative_agents/modules/agent.py:160-188 | `move` gives the agent the new coordinate and path, keeps its name and action, and changes only events of the maze |
| Movement.MoveKeepsValid | generative_agents/modules/agent.py:160-188 | a move keeps the maze's address index exact |
| Movement.MoveLeavesOldTile | generative_agents/modules/agent.py:174-182 | after a move to another tile no event of the agent is left on the tile it left |
| Movement.MoveOnPath | generative_agents/modules/agent.py:183-186 | with a path still to walk, only the tile left changes |
| Movement.ArriveShows | generative_agents/modules/agent.py:163-172 | arriving with an action, the tile shows the action's event as its subject's only event |
| Movement.UpdatedShows | generative_agents/modules/agent.py:167-168 | `update_events` and then `add_event` when nothing was updated leave the event shown on the tile |
| Movement.OtherUpdateKeepsShows | generative_agents/modules/agent.py:169-171 | putting down the object event of another subject keeps the agent's event shown |
| Movement.MoveArrives | generative_agents/modules/agent.py:183-184 | a move with no path left ends with the agent's tile showing its action's event |
| Movement.LeaveIdlesObject | generative_agents/modules/agent.py:177-181 | leaving a game object's tile puts every event of that object, on every tile of its address, to the idle event |

## Left out

- Sub-second time: instants are whole seconds, and the wall clock (`datetime.now`) is a parameter of the timer.
- Date text: parsing and printing of full dates ("%Y%m%d-%H:%M", "%A %B %d") are parameters; only "%H:%M" is modelled character by character.
- `time.sleep` between retries and all logging are side effects without bearing on results.
- Python's `/` on floats is modelled only where the source truncates or rounds it back to an integer (`int(a / b)`, `round(a / b)`); ranking scores are `real`, so floating-point rounding is not modelled.
- Randomness: `random.choice`, `random.sample` and set iteration order are nondeterministic choices or parameters; `Spatial.random_address` is not modelled, as it is a random pick and nothing else.
- The regular-expression engine is a parameter `find(pattern, line)` and the capture groups a parameter `groups`; the model does not interpret patterns.
- The language model is a parameter: every `completion` answer, rating and decision is an input.
- The vector store (llama_index) and its embeddings: similarity scores are inputs to the ranking, and the search of `_retrieve_nodes` is a pure parameter; persistence to disk is not modelled.
- Prompt text assembly (the templates filled in before each call) is not modelled; only what is done with the answer is.
- PathFinding.FindPath: where the source's search never ends (the destination is unreachable and the frontier empties), the model returns `Unreachable`; the source's `visited` set is left out because the non-zero distance test already excludes those cells; a source cell with no in-grid neighbour gives `OffGrid` where the source raises.
- Grid.GetAddressTiles: for an unknown address the source calls `random.choice` on the index's `dict_values`, which cannot be indexed, so it raises; the model answers `None`, and callers treat it as that failure.
- Movement.FindPath: a target off the grid, which only `get_around`'s Python negative-index wrap-around can produce, is a failure rather than a search to the wrapped tile.
- Movement.Move: coordinates are required on the grid; Python's negative-index wrap-around in `tile_at` is not modelled for `move`.
- Movement.Move: the dictionary of emoji events that `move` returns is not modelled.
- Ranking.Normalize: only the default target range [0, 1] scaled by the factor, the way `_retrieve` calls it, is modelled.
- `make_schedule`'s memory retrieval, the thoughts it generates and the `_add_concept` calls that store them are not modelled; the plan construction and decomposition are.
- `reflect`'s generation of thoughts and evidence is not modelled; its gate and reset are.
- The conversation log dictionary that `_chat_with` keeps under a date key is written and never read back, and is not modelled.
- `get_summary`'s rendering of the counters as text is not modelled; the counters themselves are.
- Calendar labels ("%A %B %d") are a day-label parameter of `Schedules.Scheduled`.
- Events.SameIff: the source compares events by their hash values; two events whose five-field keys differ but whose hashes collide would compare equal there, and the model does not admit such collisions.
- Strings.ParseInt: Python's `int()` also reads non-ASCII decimal digits (full-width "１２", say) and underscores between digits; the model reads only ASCII digits with optional sign and surrounding whitespace, so on such answers the callbacks that parse numbers (Callbacks.WakeUp, Callbacks.Timed and the decomposition) fall back where the source would not.
