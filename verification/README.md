# kiox buffers and transitions, modelled in Dafny

kiox is an experience-replay library for reinforcement learning. A stream
of steps (observation, action, reward, terminal flag) comes in. Each step
gets a consecutive id and is kept in a step buffer. Index-only "lazy"
transitions are built over n-step windows of the current episode and kept
in a transition buffer. A lazy transition becomes a full transition
(observations, action, discounted reward, next observation) only when it
is sampled. Batches are stacked from sampled transitions column by column.

This project models that engine:

- **Items** (`item.dfy`): scalars, arrays (a shape plus flat data) and
  tuples of arrays, with stacking, zero-filling, sizing and row lookup.
- **Steps** (`steps.dfy`): the step record. It also holds the interface
  every episode store offers, stated over the episode as a sequence of
  steps: lookup by id, k hops forward or back, and the truncated
  discounted return.
- **Step buffers** (`step_buffer.dfy`): the unbounded buffer, the
  fixed-capacity ring with a cursor, and the episode-window buffer with
  its prev/next link maps. Each is a class whose methods update its
  fields in place.
- **Lazy transitions** (`transition.dfy`): the simple and frame-stacking
  `create`, as functions over the buffer's id→step map.
- **Transition factories** (`transition_factory.dfy`): the plain factory,
  and the frame-stacking factory's loop that collects preceding ids.
- **Transition buffers** (`transition_buffer.dfy`): unbounded and FIFO.
  The FIFO buffer returns the transition it evicts.
- **Episodes** (`episode.dfy`): the id-assigning step store that an
  episode writes to, and the `Episode` class with its id list, links, hop
  lookups and return.
- **Episode manager** (`ledger.dfy`, `manager.dfy`): the manager splits
  steps into episodes. It remembers which episode produced each buffered
  transition. Once the FIFO buffer has evicted every transition of an
  episode, the manager removes that episode and its steps. Its
  bookkeeping is a value (`Ledger`); each operation is a function on it,
  proved to keep one invariant (`Consistent`).
- **Step collector** (`step_collector.dfy`): ingestion. It assigns ids,
  emits one n-step transition per step once the window is long enough,
  and drains the episode's tail at a terminal step.
- **Batch stacking** (`batch.dfy`): stacking a list of transitions into a
  batch.

The sources come from different API generations, and some signatures do
not line up:

- `kiox/episode.py` imports a `StepBuffer` whose `append` takes a partial
  step and returns the stored step. `kiox/step.py` defines only `Step`, so
  that buffer is not part of this model. `Episodes.StepStore` stands in
  for it as an id-assigning store.
- The factories are called with different keyword names in
  `kiox/step_collector.py` and `kiox/transition_factory.py`.
- `kiox/transition_buffer.py` passes an episode manager where a step
  buffer is expected.

Each component is therefore modelled against the abstract interface it
uses:

- a lookup of steps by id, which is the `map<nat, Step>` passed to
  `create`;
- the hop and return interface of `Steps`, over the episode's steps.

## Model

| member | source | states |
|---|---|---|
| Common.PyIndex | kiox/step_buffer.py:62-63 | Python list indexing: succeeds exactly for -n <= i < n; a negative index counts from the end; anything else is IndexError |
| Items.StackItems | kiox/item.py:9-60 | an empty list is IndexError; an unrecognised first item is ValueError; scalars and arrays stack to one array; arrays stack exactly when all share the first one's shape; tuples stack to one array per tuple part, exactly when the first tuple has a part and every item is a tuple with those parts in those shapes; an empty first tuple is IndexError |
| Items.StackScalars | kiox/item.py:48-50 | `np.reshape(np.array(items), [-1, 1])`; a later item that is not a scalar is ValueError. Its contract is stated by StackScalarsShape: n scalars give shape (n, 1) with row j holding scalar j |
| Items.StackArrayList | kiox/item.py:51-52 | `np.stack` of n arrays of shape s: shape (n, *s), data the arrays' data in order; StackArrayListRow states that row j is array j |
| Items.StackTuples | kiox/item.py:53-58 | the tuple branch succeeds exactly when every item is a tuple holding the first tuple's parts in their shapes, giving one array per part of the first tuple |
| Items.TupleFault | kiox/item.py:54-58 | column by column from position i: no fault exactly when every tuple has each remaining part in the first tuple's shape; a fault is IndexError or ValueError |
| Items.StackTuplesShortItem | kiox/item.py:56 | a tuple lacking a part the first tuple has makes stacking fail with IndexError when the parts present agree in shape |
| Items.TupleFaultShort | kiox/item.py:54-58 | when some tuple is shorter than the first and the parts present agree in shape, the column walk ends in IndexError |
| Items.TupleFaultRagged | kiox/item.py:54-58 | when the first failing column has its part in every tuple, the column walk ends in ValueError |
| Items.StackTuplesRaggedColumn | kiox/item.py:56 | tuples that all hold position k, agree in shape before it and differ there fail to stack with ValueError, as numpy refuses a ragged column |
| Items.StackScalarsShape | kiox/item.py:48-50 | n >= 1 scalars stack to shape (n, 1), and row j holds scalar j |
| Items.StackArraysRoundTrip | kiox/item.py:51-52 | n arrays of shape s stack to shape (n, *s); the stack's size is n; row j locates array j |
| Items.StackTuplesRoundTrip | kiox/item.py:53-58 | n k-tuples stack to k arrays in tuple order, part i having shape (n, *s_i); the size is n; row j locates tuple j |
| Items.StackArrayListRow | kiox/item.py:51-52 | row j of a stack of equally shaped arrays is array j |
| Items.ZerosLikeShape | kiox/item.py:64-83 | fails exactly on an unrecognised item; an int gives 0, a float 0.0; arrays and tuples keep kind and shape and are all zeros |
| Items.ZerosLike | kiox/item.py:64-83 | `zeros_like`; its contract is stated by ZerosLikeShape: it fails exactly on an unrecognised item and otherwise keeps kind and shape with every entry zero |
| Items.ZeroArray | kiox/item.py:76-79 | same shape as the array, every entry zero |
| Items.SizeofStackedItem | kiox/item.py:86-103 | the leading dimension of a stacked array (a 0-d one is IndexError); for a stacked tuple: no parts is IndexError, a 0-d first part TypeError; otherwise it succeeds exactly when every part leads with the first part's dimension, which it returns, and else fails at the first part that does not: IndexError if 0-d, AssertionError otherwise |
| Items.SizeFault | kiox/item.py:98-99 | no fault exactly when every part from i on leads with the size; a fault names the first part that does not, IndexError for a 0-d part and AssertionError otherwise |
| Items.IndexAll | kiox/item.py:117-118 | locating row i of a stacked tuple succeeds exactly when every part can be indexed by i, and then part i of the result is row i of part i |
| Items.Row | kiox/item.py:119-121 | row j of an array has the array's shape without its first dimension |
| Items.Index | kiox/item.py:117-121 | `a[index]` on the leading axis: IndexError for a 0-d array or an index outside [-n, n), otherwise the row at the normalised index (see Row and Common.PyIndex) |
| Items.LocateStackedItem | kiox/item.py:106-121 | row `index` of a stacked array, or the list of rows of each tuple part; its contract is stated by IndexAll (per part) and by StackArraysRoundTrip, StackTuplesRoundTrip and Batches.StackedRow (locating row j of a stack gives back item j) |
| Steps.Ids | kiox/step_buffer.py:152-154 | the ids of an episode are exactly those of its steps |
| Steps.IndexOf | kiox/step_buffer.py:152-154 | the first position holding an id, None exactly when the id is absent |
| Steps.Find | kiox/step_buffer.py:152-154 | lookup by id succeeds exactly when the id is held, and returns a held step with that id |
| Steps.FindDistinct | kiox/step_buffer.py:152-154 | when ids are distinct, lookup of a step's id returns that step |
| Steps.IndexOfDistinct | kiox/step_buffer.py:145 | when ids are distinct, the position found for a step's id is its own |
| Steps.HopZeroIsFind | kiox/episode.py:97-133 | zero hops forward or back is a plain lookup |
| Steps.GetNext | kiox/episode.py:97-115 | the positional k-hop-forward lookup every step store is proved equal to; stated by GetNextAt, HopZeroIsFind and HopsFromMissing |
| Steps.GetPrev | kiox/episode.py:117-133 | the positional k-hop-back lookup; stated by GetPrevAt, HopZeroIsFind and HopsFromMissing |
| Steps.GetNextAt | kiox/episode.py:97-115 | k hops forward from position p reach position p + k, or None past the end |
| Steps.GetPrevAt | kiox/episode.py:117-133 | k hops back from position p reach position p - k, or None before the start |
| Steps.HopsFromMissing | kiox/step_buffer.py:159-188 | from an id the episode does not hold, every hop is None and the return is NotFound |
| Steps.WindowReturnHead | kiox/episode.py:149-159 | the discounted return over a window is the first reward plus gamma times the return of the rest |
| Steps.WindowReturn | kiox/episode.py:149-159 | the discounted sum of a window of rewards; stated by WindowReturnHead |
| Steps.ComputeReturn | kiox/episode.py:135-159 | the truncated discounted return every step store is proved equal to; stated by ComputeReturnAt, ComputeReturnRecursion, ComputeReturnOneStep, ComputeReturnAtEnd and HopsFromMissing |
| Steps.ComputeReturnAt | kiox/episode.py:135-159 | the return of d steps from position p is the sum of gamma^i times reward i, over min(d, steps remaining) steps |
| Steps.ComputeReturnOneStep | kiox/step_buffer.py:175-188 | a one-step return is the step's own reward |
| Steps.ComputeReturnRecursion | kiox/episode.py:135-159 | return(p, d) = reward(p) + gamma * return(p + 1, d - 1) before the episode's end |
| Steps.ComputeReturnAtEnd | kiox/step_buffer.py:184-187 | from the last step the return is its own reward, whatever the duration |
| StepBuffers.LookupBySlot | kiox/step_buffer.py:152-154 | an id→slot index that matches the buffer gives the same lookup as searching the buffer; an id it lacks is NotFound |
| StepBuffers.UnlimitedStepBuffer.constructor | kiox/step_buffer.py:47-49 | an empty buffer and index |
| StepBuffers.UnlimitedStepBuffer.Append | kiox/step_buffer.py:51-53 | the step goes last and its id maps to its position (corrected form; see Findings) |
| StepBuffers.UnlimitedStepBuffer.Size | kiox/step_buffer.py:55-56 | the number of steps held |
| StepBuffers.UnlimitedStepBuffer.Get | kiox/step_buffer.py:58-60 | lookup by id finds the step with that id exactly when it is held |
| StepBuffers.UnlimitedStepBuffer.GetByIndex | kiox/step_buffer.py:62-63 | Python indexing of the steps in append order |
| StepBuffers.UnlimitedStepBuffer.Clear | kiox/step_buffer.py:65-67 | buffer and index emptied |
| StepBuffers.UnlimitedStepBuffer.CopyFrom | kiox/step_buffer.py:69-71 | the source's steps are appended in order |
| StepBuffers.PositionToId | kiox/step_buffer.py:53 | the map line 53 builds: each position maps to the id stored there |
| StepBuffers.GetAsWritten | kiox/step_buffer.py:51-60 | the lookup through the index as line 53 builds it (the as-written half of the first finding); stated by GetAsWrittenWhenIdsArePositions and GetAsWrittenMissesStoredStep |
| StepBuffers.GetAsWrittenWhenIdsArePositions | kiox/step_buffer.py:53-60 | while every id equals its position, the as-written lookup is correct |
| StepBuffers.GetAsWrittenMissesStoredStep | kiox/step_buffer.py:53-60 | a buffer holding one step with id 1 fails to find it |
| StepBuffers.FIFOStepBuffer.constructor | kiox/step_buffer.py:84-88 | an empty ring of the given capacity |
| StepBuffers.FIFOStepBuffer.Append | kiox/step_buffer.py:90-101 | fills the next slot until full, then overwrites the slot under the cursor; the evicted id leaves the index; the ring invariant is kept |
| StepBuffers.FIFOStepBuffer.Size | kiox/step_buffer.py:110-111 | the number of slots filled |
| StepBuffers.FIFOStepBuffer.Get | kiox/step_buffer.py:103-105 | lookup by id finds exactly the live steps |
| StepBuffers.FIFOStepBuffer.GetByIndex | kiox/step_buffer.py:107-108 | Python indexing of the slots |
| StepBuffers.FIFOStepBuffer.Clear | kiox/step_buffer.py:113-116 | slots, index and cursor reset |
| StepBuffers.FIFOStepBuffer.CopyFrom | kiox/step_buffer.py:118-120 | the source's steps are appended in order |
| StepBuffers.RingFill | kiox/step_buffer.py:91-101 | appending into a ring that is not full keeps the ring invariant, and the cursor advances modulo the capacity |
| StepBuffers.RingOverwrite | kiox/step_buffer.py:93-101 | overwriting the slot under the cursor keeps the ring invariant |
| StepBuffers.RingLiveIds | kiox/step_buffer.py:94-97 | the live ids are those of the last min(k, maxlen) appends, and are exactly the index's keys |
| StepBuffers.RingSlot | kiox/step_buffer.py:95-101 | slot k mod maxlen holds the k-th appended step, for each of the last maxlen appends |
| StepBuffers.EpisodicStepBuffer.constructor | kiox/step_buffer.py:135-141 | an empty window with no links |
| StepBuffers.EpisodicStepBuffer.Append | kiox/step_buffer.py:143-150 | the step goes last and is linked both ways to the previous step; the first step has no predecessor |
| StepBuffers.EpisodicStepBuffer.Get | kiox/step_buffer.py:152-154 | lookup by id over the window |
| StepBuffers.EpisodicStepBuffer.GetByIndex | kiox/step_buffer.py:156-157 | Python indexing of the window |
| StepBuffers.EpisodicStepBuffer.FollowNext | kiox/step_buffer.py:160-164 | the loop lands k places later in the window, or None past the end |
| StepBuffers.EpisodicStepBuffer.GetNext | kiox/step_buffer.py:159-165 | equals the interface's k-hop-forward lookup |
| StepBuffers.EpisodicStepBuffer.FollowPrev | kiox/step_buffer.py:168-172 | the loop lands k places earlier, or None before the start |
| StepBuffers.EpisodicStepBuffer.GetPrev | kiox/step_buffer.py:167-173 | equals the interface's k-hop-back lookup |
| StepBuffers.EpisodicStepBuffer.ComputeReturn | kiox/step_buffer.py:175-188 | equals the interface's truncated discounted return (corrected hop; see Findings) |
| StepBuffers.EpisodicStepBuffer.Size | kiox/step_buffer.py:190-191 | the number of steps in the window |
| StepBuffers.EpisodicStepBuffer.Clear | kiox/step_buffer.py:193-199 | window, index and links emptied; prev step and cursor reset |
| StepBuffers.ReturnAsWrittenFrom | kiox/step_buffer.py:178-188 | the as-written loop computes the discounted return while the slot it hops to holds the id it looks up |
| StepBuffers.ReturnAsWritten | kiox/step_buffer.py:175-188 | the return loop as written, hopping to `_next_index[next_idx]` (the as-written half of the second finding); stated by ReturnAsWrittenFrom, ReturnAsWrittenWhenIdsArePositions and ReturnAsWrittenFailsOnSecondStep |
| StepBuffers.ReturnAsWrittenWhenIdsArePositions | kiox/step_buffer.py:184-185 | while every id equals its slot, the as-written return is correct |
| StepBuffers.ReturnAsWrittenFailsOnSecondStep | kiox/step_buffer.py:184-185 | for two steps with ids 5 and 6 and duration 2, the as-written loop raises where the return exists |
| Transitions.LazyTransitionObject.constructor | kiox/transition.py:33-51 | a lazy transition object, compared by identity, holding its value |
| Transitions.CreateSimpleFields | kiox/transition.py:78-93 | `create` succeeds exactly when the ids it reads resolve; it copies observation, action and terminal, takes the stored reward and duration; next observation is the next step's or zeros like the observation |
| Transitions.CreateSimple | kiox/transition.py:78-93 | `SimpleLazyTransition.create`; its contract is stated by CreateSimpleFields |
| Transitions.AtLeast2D | kiox/transition.py:134 | `np.atleast_2d` keeps the number of entries and gives at least two dimensions, leaving 2-d and higher shapes alone |
| Transitions.VStack | kiox/transition.py:134 | stacking succeeds exactly for a non-empty list of arrays that, made at least 2-d, agree on every dimension after the first; the result has the frames' rows added up, those common trailing dimensions, and the frames' data in order |
| Transitions.StackedLength | kiox/transition.py:134 | frames with common trailing dimensions hold their total rows times one row's size of entries |
| Transitions.StackUniform | kiox/transition.py:134 | frames of one shape s always stack, to shape (k, 1) for 0-d, (k, n) for 1-d and (k * s0, *rest) otherwise |
| Transitions.RowsUniform | kiox/transition.py:134 | k frames of one shape contribute k times that shape's rows |
| Transitions.VStackSize | kiox/transition.py:134 | the stacked shape holds as many entries as all frames together |
| Transitions.Observations | kiox/transition.py:126-129 | resolving the previous-frame ids succeeds exactly when each is held, giving their observations in order |
| Transitions.FrameList | kiox/transition.py:121-132 | max(n_frames - |prev| - 1, 0) zero pads, then the previous frames oldest first, then the current frame |
| Transitions.StackNext | kiox/transition.py:136-143 | with no next step, zeros of the stacked shape; otherwise the frames shifted by one with the next frame last, of the same length, stacking exactly when that list is stackable |
| Transitions.CreateFrameStackObservation | kiox/transition.py:116-134 | on success the observation stack is the pads, the previous frames and the current frame, in that order, with the stacked shape of those frames (k rows of the current shape when all frames share it), and action, reward, terminal and duration are as stored |
| Transitions.CreateFrameStackNext | kiox/transition.py:136-152 | on success the next stack is all zeros of the same shape when there is no next step, else the shifted frame list |
| Transitions.CreateFrameStackNeedsIds | kiox/transition.py:117-129 | an unresolved current or previous-frame id makes `create` fail with NotFound |
| Transitions.CreateFrameStackNeedsNext | kiox/transition.py:139-141 | an unresolved next id makes `create` fail |
| Transitions.CreateFrameStack | kiox/transition.py:116-151 | `FrameStackLazyTransition.create`; its contract is stated by CreateFrameStackObservation, CreateFrameStackNext, CreateFrameStackNeedsIds and CreateFrameStackNeedsNext |
| Transitions.Create | kiox/transition.py:53-61 | `create` of the lazy transition's own kind: CreateSimple for the plain kind, CreateFrameStack for the frame-stacking kind |
| TransitionFactories.SimpleFactoryFields | kiox/transition_factory.py:49-62 | for a step of the episode: current id, next id (or None) and duration are copied, and the reward is the step's discounted return (its own reward for duration 1); failure exactly when the step is missing |
| TransitionFactories.SimpleFactoryCreate | kiox/transition_factory.py:49-62 | `SimpleTransitionFactory.create`; its contract is stated by SimpleFactoryFields |
| TransitionFactories.PrecedingIds | kiox/transition_factory.py:87-93 | at most n ids |
| TransitionFactories.PrecedingIdsAreHops | kiox/transition_factory.py:87-93 | the preceding ids are those reached 1..min(n, p) hops back, oldest first, fewer near the episode's start |
| TransitionFactories.PrecedingFrames | kiox/transition_factory.py:87-93 | the loop with its early break yields the preceding ids, oldest first |
| TransitionFactories.FrameStackFactoryCreate | kiox/transition_factory.py:80-101 | the frame-stacking transition: the preceding ids, at most n_frames - 1 of them, plus the fields and the failure of the plain factory |
| TransitionFactories.FrameStackCreated | kiox/transition_factory.py:80-101 | what `FrameStackTransitionFactory.create` returns; FrameStackFactoryCreate is proved to return it, PrecedingIdsAreHops states its preceding ids and FrameStackAgreesWithSimple its other fields |
| TransitionFactories.FrameStackAgreesWithSimple | kiox/transition_factory.py:94-101 | the frame-stacking factory records the same current id, next id, reward and duration as the plain one |
| TransitionFactories.CreateTransition | kiox/transition_factory.py:14-39 | `create` of whichever factory is given |
| TransitionFactories.CreatedFields | kiox/transition_factory.py:14-39 | either factory succeeds on a step of the episode, with that step's id, the next id, the duration and the discounted return |
| TransitionFactories.Created | kiox/transition_factory.py:14-39 | the result of the given factory's `create`; CreateTransition is proved to return it and CreatedFields states its fields |
| TransitionBuffers.WindowShape | kiox/transition_buffer.py:72 | a deque bounded by maxlen holds min(k, maxlen) items, the last appended last, and after overflow exactly the last maxlen |
| TransitionBuffers.WindowSlide | kiox/transition_buffer.py:78-82 | appending to a full deque drops its oldest item; otherwise it only grows |
| TransitionBuffers.DroppedLeaves | kiox/transition_buffer.py:78-82 | the evicted item is never the one just appended, and it is gone afterwards |
| TransitionBuffers.UnlimitedTransitionBuffer.constructor | kiox/transition_buffer.py:38-39 | an empty buffer |
| TransitionBuffers.UnlimitedTransitionBuffer.Append | kiox/transition_buffer.py:41-45 | appends last and returns None |
| TransitionBuffers.UnlimitedTransitionBuffer.GetByIndex | kiox/transition_buffer.py:47-48 | Python indexing in append order |
| TransitionBuffers.UnlimitedTransitionBuffer.Size | kiox/transition_buffer.py:54-55 | the number held |
| TransitionBuffers.UnlimitedTransitionBuffer.Sample | kiox/transition_buffer.py:50-52 | an empty buffer is ValueError; otherwise the chosen transition materialised |
| TransitionBuffers.UnlimitedTransitionBuffer.CopyFrom | kiox/transition_buffer.py:57-59 | the target becomes target ++ source |
| TransitionBuffers.FIFOTransitionBuffer.constructor | kiox/transition_buffer.py:70-72 | an empty deque with the given bound |
| TransitionBuffers.FIFOTransitionBuffer.Append | kiox/transition_buffer.py:74-83 | returns the oldest item exactly when the buffer was full, None otherwise; with bound 0 it raises IndexError |
| TransitionBuffers.FIFOTransitionBuffer.GetByIndex | kiox/transition_buffer.py:85-86 | Python indexing, oldest first |
| TransitionBuffers.FIFOTransitionBuffer.Size | kiox/transition_buffer.py:92-93 | min(appended, maxlen) |
| TransitionBuffers.FIFOTransitionBuffer.Sample | kiox/transition_buffer.py:88-90 | an empty buffer is ValueError; otherwise the chosen transition materialised |
| TransitionBuffers.FIFOTransitionBuffer.CopyFrom | kiox/transition_buffer.py:95-97 | the source is appended in order; with bound 0 and a non-empty source it raises |
| Episodes.StepStore.Append | kiox/episode.py:50 | the partial step is stored under the next fresh id |
| Episodes.StepStore.Get | kiox/episode.py:83 | lookup by id |
| Episodes.StepStore.Drop | kiox/episode.py:255 | exactly that id is removed |
| Episodes.LookupAll | kiox/episode.py:179-181 | the episode's steps resolve exactly when every id is stored |
| Episodes.Episode.constructor | kiox/episode.py:29-38 | an empty episode over the given buffers |
| Episodes.Episode.AppendStep | kiox/episode.py:40-56 | exactly one id added, last; linked both ways to the previous step; the first step has no prev link |
| Episodes.Episode.AppendTransition | kiox/episode.py:58-71 | the transition is recorded and handed to the buffer, whose eviction is returned |
| Episodes.Episode.Get | kiox/episode.py:73-83 | the store's lookup |
| Episodes.Episode.GetByIndex | kiox/episode.py:85-95 | the step at that position of the id list |
| Episodes.Episode.GetNext | kiox/episode.py:97-115 | k hops forward along the links |
| Episodes.Episode.GetPrev | kiox/episode.py:117-133 | k hops back along the links |
| Episodes.HopsAreInterfaceHops | kiox/episode.py:97-133 | the link hops equal the interface's hops over the episode's steps: the step k positions away, or None |
| Episodes.HopForward | kiox/episode.py:97-115 | following `_next_idx` k times, then the lookup; HopsAreInterfaceHops proves it equal to Steps.GetNext |
| Episodes.HopBack | kiox/episode.py:117-133 | following `_prev_idx` k times, then the lookup; HopsAreInterfaceHops proves it equal to Steps.GetPrev |
| Episodes.Episode.ComputeReturn | kiox/episode.py:135-159 | duration 0 gives 0; an unknown id is NotFound; otherwise the truncated discounted return |
| Episodes.IdsReturnIsWindowReturn | kiox/episode.py:149-159 | the return over ids equals the return over the episode's steps |
| Episodes.IdsReturn | kiox/episode.py:149-159 | the discounted sum over the episode's ids; IdsReturnIsWindowReturn proves it equal to the sum over the steps |
| Episodes.ReturnIsInterfaceReturn | kiox/episode.py:135-159 | the episode's return equals the interface's return |
| Episodes.IncludesMeansHeld | kiox/episode.py:170-177 | `includes` holds exactly for the ids of the episode's steps |
| Ledgers.WithStepKeeps | kiox/episode.py:214-224 | appending a step to the active episode keeps the manager's invariant |
| Ledgers.WithStep | kiox/episode.py:214-224 | `append_step` on the books; WithStepKeeps states that it keeps the invariant |
| Ledgers.WithEpisodeKeeps | kiox/episode.py:269-278 | a new empty episode keeps the invariant |
| Ledgers.WithEpisode | kiox/episode.py:269-278 | `clip_episode` on the books; WithEpisodeKeeps states that it keeps the invariant |
| Ledgers.RecordedKeeps | kiox/episode.py:236-237 | recording a new transition with the active episode keeps the invariant |
| Ledgers.Recorded | kiox/episode.py:236-237 | the active episode owns and records the transition; RecordedKeeps states that it keeps the invariant |
| Ledgers.BufferedKeeps | kiox/episode.py:70-71 | handing the transition to the buffer keeps the invariant |
| Ledgers.Buffered | kiox/episode.py:70-71 | the transition buffer takes the transition; BufferedKeeps states that it keeps the invariant |
| Ledgers.HandedKeeps | kiox/episode.py:236-237 | recording then buffering keeps the invariant |
| Ledgers.HandedEviction | kiox/episode.py:238-239 | an evicted transition is never the new one, leaves the buffer and keeps its owner |
| Ledgers.ReleaseCount | kiox/episode.py:241-252 | an episode's dropped count never exceeds its transition count, and reaches it exactly when the episode owns no other transition |
| Ledgers.ReleasedKeeps | kiox/episode.py:238-255 | releasing an evicted transition keeps the invariant |
| Ledgers.Released | kiox/episode.py:238-255 | the evicted transition is counted as dropped and disowned, and a spent owner goes with its steps; stated by ReleasedKeeps, ReleasedSpent and ReleaseCount |
| Ledgers.ReleasedSpent | kiox/episode.py:238-255 | the released transition loses its owner; the owner is removed, with its steps, exactly when it owns nothing else |
| Ledgers.EvictingKeeps | kiox/episode.py:236-255 | recording, buffering and releasing an eviction keeps the invariant, and the new transition stays owned by the active episode |
| Ledgers.WithTransitionKeeps | kiox/episode.py:226-255 | `append_transition` keeps the invariant and the buffer holds the last maxlen transitions |
| Ledgers.WithTransition | kiox/episode.py:226-255 | `append_transition` on the books; stated by WithTransitionKeeps, EvictionRemovesSpent, EvictionSparesActive, WithTransitionActive, WithTransitionViews and AppendedTransition |
| Ledgers.EvictionReady | kiox/episode.py:239-255 | an evicted transition's owner is live and knows its steps' positions |
| Ledgers.EvictionSparesActive | kiox/episode.py:249-253 | an eviction removes no episode, or one that is not the active one |
| Ledgers.WithTransitionActive | kiox/episode.py:236-253 | the active episode stays active after `append_transition` |
| Ledgers.EvictionRemovesSpent | kiox/episode.py:236-255 | on overflow the evicted transition is disowned; its owner and that owner's steps are removed exactly when the owner owns nothing else |
| Ledgers.AppendedTransition | kiox/episode.py:226-255 | what `append_transition` needs and keeps: the invariant, the active episode, no new episodes, and a ready eviction |
| Ledgers.WithTransitionViews | kiox/episode.py:226-255 | `append_transition` creates no episode |
| EpisodeManagers.PositionKeys | kiox/episode.py:161-168 | an episode's positions are keyed by exactly its ids, as many as it has steps |
| EpisodeManagers.HeldByCount | kiox/episode.py:280-287 | the steps held by a prefix of the live episodes are as many as their sizes add up to |
| EpisodeManagers.TotalIsStored | kiox/episode.py:280-287 | the live episodes' sizes add up to the number of stored steps |
| EpisodeManagers.FoundIffHeld | kiox/episode.py:257-267 | a step id is found exactly when a live episode holds it |
| EpisodeManagers.EpisodeManager.constructor | kiox/episode.py:205-212 | one empty episode; no transitions recorded |
| EpisodeManagers.EpisodeManager.AppendStep | kiox/episode.py:214-224 | the step is stored under the next id and goes last in the active episode; the invariant is kept |
| EpisodeManagers.EpisodeManager.AppendTransition | kiox/episode.py:226-255 | the books become `WithTransition` of the old books, the invariant is kept, the active episode stays active; bound 0 raises |
| EpisodeManagers.EpisodeManager.Record | kiox/episode.py:236-237 | the active episode owns and records the transition |
| EpisodeManagers.EpisodeManager.Release | kiox/episode.py:238-255 | the books become `Released` of the old books |
| EpisodeManagers.EpisodeManager.DropSteps | kiox/episode.py:254-255 | exactly the episode's ids leave the store |
| EpisodeManagers.EpisodeManager.GetStepByIdx | kiox/episode.py:257-267 | the store's lookup, which succeeds exactly for the steps of live episodes |
| EpisodeManagers.EpisodeManager.ClipEpisode | kiox/episode.py:269-278 | a fresh empty episode becomes active; the others are unchanged; the invariant is kept |
| EpisodeManagers.EpisodeManager.GetTotalStepSize | kiox/episode.py:280-287 | the sum of the live episodes' sizes, which equals the number of stored steps |
| StepCollection.Values | kiox/step_collector.py:60 | one lazy transition per object |
| StepCollection.ValuesAppend | kiox/step_collector.py:60 | appending an object appends its transition |
| StepCollection.Built | kiox/step_collector.py:50-74 | one transition per request |
| StepCollection.BuiltFields | kiox/step_collector.py:53-59 | each built transition points at its anchor and next step, has the requested duration and the anchor's discounted return |
| StepCollection.BuiltSplit | kiox/step_collector.py:62-74 | building a list of requests builds each request in turn |
| StepCollection.WindowRequests | kiox/step_collector.py:50-60 | only requests inside the window |
| StepCollection.DrainRequests | kiox/step_collector.py:62-74 | n requests, all inside the window |
| StepCollection.DrainStep | kiox/step_collector.py:65-74 | one drain pass extends the transitions by the next request |
| StepCollection.RunAnchors | kiox/step_collector.py:50-60 | over one episode of n non-terminal steps the windows give max(0, n - n_steps) transitions, the q-th anchored at q with the step n_steps later as next |
| StepCollection.TerminatedEpisode | kiox/step_collector.py:50-74 | a terminated episode of length L >= n_steps gives exactly L transitions; the q-th is anchored at q with duration min(n_steps, L - q) and next None in the tail |
| StepCollection.StepCollector.constructor | kiox/step_collector.py:15-30 | ids start at the offset and the window is empty |
| StepCollection.StepCollector.Collect | kiox/step_collector.py:32-76 | one step with the next id goes to both buffers; a window transition is emitted iff the window holds more than n_steps; a terminal step drains n_steps transitions and empties the window, or fails the assertion when the episode is shorter |
| StepCollection.StepCollector.Store | kiox/step_collector.py:39-48 | the step gets the current id, the counter advances, and both buffers get the step |
| StepCollection.StepCollector.EmitWindow | kiox/step_collector.py:50-60 | the transition anchored n_steps back, next = the current step, duration n_steps, is appended iff the window is long enough |
| StepCollection.StepCollector.StepBack | kiox/step_collector.py:51 | `get_prev` i hops back from the newest step gives the step i places back, or None |
| StepCollection.Hopped | kiox/step_collector.py:51 | hops back from the newest step land i places from the end |
| StepCollection.StepCollector.Emit | kiox/step_collector.py:53-60 | the factory's transition for the request is appended to the buffer |
| StepCollection.StepCollector.Drain | kiox/step_collector.py:62-74 | for i = n_steps - 1 down to 0, the transition anchored i back with next None and duration i + 1 is appended; a shorter episode fails the assertion and appends nothing |
| StepCollection.StepCollector.DrainPass | kiox/step_collector.py:63-74 | one pass of the drain loop appends its transition |
| StepCollection.StepCollector.EndEpisode | kiox/step_collector.py:62-76 | the drain then the clip; on the assertion failure nothing changes |
| StepCollection.StepCollector.ClipEpisode | kiox/step_collector.py:78-79 | only the episode window is emptied |
| Batches.ObservationItems | kiox/batch_factory.py:49-50 | the observations, in transition order |
| Batches.NextObservationItems | kiox/batch_factory.py:51-52 | the next observations, in transition order |
| Batches.ActionItems | kiox/batch_factory.py:53-54 | the actions, in transition order |
| Batches.RewardItems | kiox/batch_factory.py:55-56 | the rewards as float scalars, in transition order |
| Batches.ColumnVector | kiox/batch_factory.py:57-72 | n values reshaped to (n, 1) |
| Batches.StackedRow | kiox/item.py:9-121 | row j of a stacked column is item j: a scalar as a one-element array, an array or an equal-length tuple as itself; the size is the item count |
| Batches.StackBatchColumns | kiox/batch_factory.py:48-73 | a batch stacks exactly when its four item columns stack (never from an empty list); each column is `stack_items` of its field; rewards, terminals and durations are (n, 1); row j of each comes from transition j |
| Batches.StackBatchRows | kiox/batch_factory.py:48-73 | row j of the observation, next observation and action columns locates transition j's item |
| Batches.StackBatch | kiox/batch_factory.py:48-73 | the stacking of `sample`; its contract is stated by StackBatchColumns (when it succeeds, which error it raises, the (n, 1) columns) and StackBatchRows (row j comes from transition j) |

## Left out

- Concurrency: the thread pool of `BatchFactory.sample` and the race between eviction and sampling. The batch model takes an already materialised list of transitions.
- Randomness: `np.random.randint` in `sample` is replaced by an index parameter in [0, size).
- Numerics: floats are `real`; there is no IEEE rounding, float32 or numpy dtype. An array is a shape plus its flat data, so `np.vstack` memory layout is not modelled.
- Python object identity (`id(transition)`) is the identity of a `LazyTransitionObject`. Each transition passed to the manager must be a new object (`t !in seen`), as every caller creates one.
- The distributed server, file I/O and the facade modules are not part of this model.
- `EpisodicStepBuffer.copy_from` only raises NotImplementedError and is not modelled.
- The `steps` and `transitions` properties are plain field reads and have no member of their own.
- `BatchFactory.sample` lines 37-47 (drawing the transitions) are not modelled; only the stacking of lines 48-73 is.
- StepBuffers.FIFOStepBuffer.constructor: requires maxlen >= 1. With capacity 0, the source's first append raises IndexError on the empty list; the model does not reproduce that error.
- StepBuffers.UnlimitedStepBuffer.Append: requires a fresh id. The same holds for the other step buffers' Append and CopyFrom. The source would silently remap a repeated id; every caller assigns consecutive ids.
- StepCollection.StepCollector.constructor: requires the given step buffer's ids to be below `idx_offset`, so that collected ids are fresh. The collector is modelled over an unbounded step buffer and a FIFO transition buffer of bound at least 1; the source accepts any buffers.
- StepCollection.StepCollector.Collect: computes each transition's reward with the corrected return of kiox/step_buffer.py:185 (see Findings), not the loop as written. As written, a factory's `compute_return` over the window fails its assertion once ids no longer equal window slots: for every `collect` with n_steps >= 2 after the first `clip_episode`, and from the first episode when `idx_offset` > 0. The model promises the intended transitions instead.
- EpisodeManagers.EpisodeManager.constructor: requires empty buffers. The source accepts any buffers, but its books then do not describe what they hold. It also takes a `FIFOTransitionBuffer` only, while the source accepts any `TransitionBuffer`; with an `UnlimitedTransitionBuffer` no transition is evicted and no episode is ever removed, a configuration the model does not cover.
- EpisodeManagers.EpisodeManager: the manager keeps what it reads of each episode (ids, positions, transitions) as a value keyed by episode serial. It does not keep `Episode` objects, so their prev/next links are not tracked there; the `Episode` class models those.
- Negative `n_steps`, durations or hop counts are not modelled: they are `nat`.
- Episodes.Episode.Size and Episodes.Episode.Includes are read-only functions without contracts of their own. `IncludesMeansHeld` and `GetTotalStepSize` state what they mean.
- `reward: Item` in `Step` is modelled as a real; array-valued rewards are not modelled, and neither is an int reward, on which the source's `compute_return` fails its `isinstance(reward, (float, np.ndarray))` assertion.
- Steps.ComputeReturn: returns a value for every held id; with an int reward the source raises AssertionError (kiox/episode.py:153), which the model cannot express because rewards are reals.
- Episodes.Episode.ComputeReturn: as Steps.ComputeReturn; the AssertionError of kiox/episode.py:153 on an int reward is not modelled.
- StepBuffers.EpisodicStepBuffer.ComputeReturn: as Steps.ComputeReturn; the AssertionError of kiox/step_buffer.py:182 on an int reward is not modelled.
- Items.StackItems: a later item of another kind than the first is ValueError. numpy does not always refuse such a list: a scalar next to 0-d arrays stacks, and a later tuple is indexed (`items[j][i]`) whatever its kind, which for a scalar is TypeError.
- Transitions.VStack: a frame that is not an array (a previous step's scalar or tuple observation) is ValueError; numpy would first convert it with `asanyarray`, and a scalar then stacks as a 1x1 frame.
- Episodes.Episode.constructor: takes a `FIFOTransitionBuffer` only, while the source accepts any `TransitionBuffer`. With an `UnlimitedTransitionBuffer` nothing is evicted, so no transition is ever dropped; the model does not cover that configuration.
- TransitionBuffers.FIFOTransitionBuffer.CopyFrom: the source is a sequence value, so copying a buffer into itself (iterating a deque while appending to it) is not modelled; the same holds for TransitionBuffers.UnlimitedTransitionBuffer.CopyFrom and the step buffers' CopyFrom.

## Findings

| source | as written | input that shows it | evidently intended | confidence | as-written member | corrected member |
|---|---|---|---|---|---|---|
| kiox/step_buffer.py:53 | `_index[len(_buffer) - 1] = step.idx` maps position to id, while `get` (lines 58-60) reads it as id to position | one step with id 1: `get(1)` fails the assertion although the step is held | `_index[step.idx] = len(_buffer) - 1` | high; not executed | StepBuffers.GetAsWrittenMissesStoredStep | StepBuffers.UnlimitedStepBuffer.Get |
| kiox/step_buffer.py:185 | `next_idx = _next_index[next_idx]` stores a slot position, which the next pass looks up as an id | steps with ids 5 and 6, `compute_return(5, 2, gamma)`: the second pass looks up id 1 and fails | `next_idx = _buffer[_next_index[next_idx]].idx`, as `get_next` does at line 164 | high; not executed | StepBuffers.ReturnAsWrittenFailsOnSecondStep | StepBuffers.EpisodicStepBuffer.ComputeReturn |

The step collector inherits the corrected return of the second row: its window is an `EpisodicStepBuffer`, and the factories call its `compute_return` (kiox/transition_factory.py:60 and 97). So with the line as written, `collect` itself fails on any window whose ids are not its slot positions.
