# Virtual file system: path resolution, tree building and descriptors

A Dafny model of the in-memory `VirtualFileSystem` of `internal/pkg/fs/fs.go`,
the test double that stands in for a real file system. It keeps a tree of
nodes (directories, regular files and symlinks, each of which may carry an
injected fault) and resolves slash-separated names against it.

The model covers:

- the resolution walk (`abs`, `find` and the `findHelper` loop);
- the tree builder (`createChildren`, `Set` and `NewVirtualFileSystem`);
- the read side (`Open`, `Stat`, and the descriptor's `Read` and `Readdir`).

Modules, in dependency order:

- `Base`: bytes, byte strings and `Option`.
- `Modes`: `os.FileMode` as a `bv32`, with Go's bit constants, and the mode check `Set` makes.
- `Paths`: `strings.IndexByte`, the head/tail split of a remainder (`getNameComp`, `updateNameRemFromSlashPos`) and the components of a remainder.
- `Tree`: nodes, error values, panics and index-path addresses. It also has `Lookup`, `DirAppend` and `NewDirNode`, and the well-formedness invariant.
- `Resolve`: `Abs`, one iteration of the walk (`Iterate`, `Component`, `FromChild`), the whole walk (`Run`) and `Find`.
- `ResolveFacts`: where a walk stops on a missing child or a non-directory, how the fault and symlink policies change a walk, symlink splicing, how walks compose, and which tree changes a walk cannot see.
- `Builder`: `Graft` (`createChildren`), `Set`, `NewVirtualFileSystem`, and the proof that `Set` keeps a tree well-formed.
- `BuilderFacts`: what a lookup finds after `Set`, idempotence, the panics `Set` raises before touching the tree, what `Set` does on the name of a symlink, and the shape of what `createChildren` grafts.
- `Facade`: the descriptor, `Read`, `ReadAll`, `Readdir`, `Open` and `Stat`.
- `FacadeFacts`: the errors `Open` and `Stat` report for a missing name or a name below a non-directory, `Set` followed by `Open`, `Stat` and `Read`, and the uniqueness of `Readdir` entries.
- `Scenarios`: a two-link symlink cycle, a name with a trailing slash and a missing name in an empty file system.

How the Go program is represented:

- Trees are immutable datatypes. `find` returns the index path of the node it stopped on. `Set` rebuilds the tree along that path.
- A panic is a value:
  - `Outcome.Panicked` for the walk, `Open`, `Stat` and `Readdir`;
  - `Applied(fs, Some(reason))` for `Set`, holding the tree as it stood when the panic happened.
- The walk's own halts (`NotDir`, `NotExist`, `TooManyLinks`) are kept apart from an injected fault (`Injected(e)`). `Halt.ToError` maps each one to the Go error value `find` returns.
- Symlinks are followed at most `MaxLinks` = 255 times. The 256th redirection fails with too many links.
- A followed symlink whose target is absolute restarts the walk from the root, without the target's leading slash. A relative target is walked from the directory that holds the link.

The model follows the code where the code and its doc comments part ways:

- `Set` panics with the directory-disagreement error when a parent is not a directory. The comment above `Set` says ENOTDIR is returned.
- The comment above `Set` says an existing symlink's target is updated. But `Set` looks the name up without following symlinks, and that lookup steps over a symlink and stays on its directory. So `Set` on the name of an existing symlink never reaches the link:
  - with a descriptor that is not a directory, it panics with the directory disagreement (`BuilderFacts.SetOverSymlinkPanics`);
  - with a directory descriptor, it overwrites the mode and fault of the directory holding the link and leaves the link alone (`BuilderFacts.SetDirectoryOverSymlink`). For a link in the root that directory is the root itself, so a fault in the descriptor makes every later `Open` fail (`FacadeFacts.SetOverRootSymlinkFaultsAll`).

## Model

| member | source | states |
|---|---|---|
| Modes.ModeAccepted | internal/pkg/fs/fs.go:261-272 | a mode is accepted exactly when its type bits are none, the directory bit alone, or the symlink bit alone; an accepted directory mode is not a symlink, and an accepted mode that is neither a directory nor a symlink is regular |
| Paths.HeadTailSplit | internal/pkg/fs/fs.go:106-111 | the component taken holds no slash, and the remainder is that component, then the slash and what is left after it; consuming a non-empty remainder makes it strictly shorter |
| Paths.HeadTailJoin | internal/pkg/fs/fs.go:160-166 | splitting `r1 + "/" + r2` happens inside `r1` when `r1` has a slash, and otherwise yields `r1` and then `r2` |
| Paths.ComponentsHeadTail | internal/pkg/fs/fs.go:191-229 | the components of a remainder are its head, when that is not empty, followed by the components of its tail |
| Tree.Lookup | internal/pkg/fs/fs.go:98-101 | a child found by name sits at a valid index and has that name |
| Tree.LookupFirst | internal/pkg/fs/fs.go:98-101 | the child found is the first with that name |
| Tree.LookupNone | internal/pkg/fs/fs.go:98-101 | the lookup finds nothing exactly when no child has the name |
| Tree.NewDirNode | internal/pkg/fs/fs.go:218-221 | a default directory is a directory, has the given name, no fault and no children |
| Tree.EmptyFileSystem | internal/pkg/fs/fs.go:243-249 | the starting root is a well-formed directory, not a symlink, with no children and no fault |
| Resolve.Abs | internal/pkg/fs/fs.go:75-80 | the result starts with a slash and ends with the name, at most one byte longer; an absolute name is returned unchanged |
| Resolve.Iterate | internal/pkg/fs/fs.go:113-136 | a finished walk never returns a plain error, and it panics only with the invalid name component and only when the head of the remainder is "." or ".."; it stays on the current node; success consumed everything and, with faults checked, the node is fault-free; a non-directory or missing-child halt keeps the offending component at the head of the remainder; an injected fault is the node's own; a continued walk stays inside the tree and either spends a link or shortens the remainder |
| Resolve.Component | internal/pkg/fs/fs.go:91-130 | once the current node's fault has not stopped the walk, taking the next component of a non-empty remainder either finishes the walk, never with a plain error, panicking (with the invalid name component) only when that component is "." or "..", on the current node and with a non-directory or missing-child halt keeping the component at the head of the remainder, or continues inside the tree having spent a link or shortened the remainder |
| Resolve.FromChild | internal/pkg/fs/fs.go:138-158 | the walk stops only on a symlink child that is followed when all 255 links are already spent, with too many links; otherwise the next cursor is valid, has spent one more link or has a shorter remainder, and without following it stays below the current address |
| Resolve.Run | internal/pkg/fs/fs.go:113-136 | the loop terminates; its result satisfies the finished-walk properties, and without following symlinks the remainder left is a suffix of the one given and the address extends the starting one |
| Resolve.Find | internal/pkg/fs/fs.go:168-182 | the result satisfies the finished-walk properties; without following symlinks the remainder left is a suffix of the name; the node reached is the root or not a symlink |
| ResolveFacts.RunMissingChild | internal/pkg/fs/fs.go:95-101 | under any policy, a directory without a child named by the next component stops the walk there with the not-exist halt and the component still to walk |
| ResolveFacts.RunNotDir | internal/pkg/fs/fs.go:95-97 | under any policy, a component met on a node that is not a directory stops the walk there with the not-a-directory halt and the component still to walk |
| ResolveFacts.FindMissingChild | internal/pkg/fs/fs.go:168-182 | with the lookup `Set` makes (faults ignored, symlinks not followed), finding `parent + "/" + rest`, where `parent` is a directory without a child named by the head of `rest`, stops on that directory with the not-exist halt and `rest` unconsumed |
| ResolveFacts.FindUnderNonDirectory | internal/pkg/fs/fs.go:168-182 | with the lookup `Set` makes (faults ignored, symlinks not followed), finding `parent + "/" + rest`, where `parent` is not a directory, stops on it with the not-a-directory halt and `rest` unconsumed |
| ResolveFacts.RunInjected | internal/pkg/fs/fs.go:113-117 | under a policy that checks faults, a walk standing on a faulty node stops there at once with that node's fault, whatever remains to walk |
| ResolveFacts.RunDotPanics | internal/pkg/fs/fs.go:91-95 | under any policy, once the current node's fault has not stopped the walk, a "." or ".." component panics with the invalid name component |
| ResolveFacts.RunConcatInjected | internal/pkg/fs/fs.go:113-136 | without following, a walk over `r1` that stops on an injected fault stops on the same node with the same fault over `r1 + "/" + r2` |
| ResolveFacts.InjectedFaultsOnlyAdd | internal/pkg/fs/fs.go:115-117 | checking faults gives the fault-ignoring result or stops on a fault; if the fault-ignoring walk succeeds on a faulty node, the checking walk stops on a fault |
| ResolveFacts.FaultPolicyIrrelevant | internal/pkg/fs/fs.go:132-134 | in a fault-free tree both fault policies give the same walk |
| ResolveFacts.SymlinkPolicyIrrelevant | internal/pkg/fs/fs.go:139-153 | in a tree without symlinks both symlink policies give the same walk |
| ResolveFacts.SymlinkSplice | internal/pkg/fs/fs.go:138-158 | on a symlink child: without following, the walk drops the component and stays; with no link left, it fails with too many links; otherwise the target and a slash are spliced before the rest, from the root without the leading slash for an absolute target, from the current node for a relative one |
| ResolveFacts.RunConcat | internal/pkg/fs/fs.go:113-136 | without following, walking `r1 + "/" + r2` is walking `r1` and then `r2` from where `r1` succeeded |
| ResolveFacts.FindConcat | internal/pkg/fs/fs.go:168-182 | without following, finding `parent + "/" + rest` is finding `parent` and then walking `rest` from the node found |
| ResolveFacts.WalkFrame | internal/pkg/fs/fs.go:113-136 | a walk that ignores faults and does not follow symlinks, and that succeeds or stops on a missing child reaches the same address in any tree that looks the same along its path, and goes on from there with the same remainder |
| Builder.Graft | internal/pkg/fs/fs.go:190-230 | the grafted node keeps its name, mode and fault; its old children come first; the only panic is the invalid name component |
| BuilderFacts.GraftBuildsChain | internal/pkg/fs/fs.go:190-230 | for a remainder with components and no "." or "..", exactly one child is appended, namely the chain of default directories ending in a leaf from the descriptor, or in a default directory when the remainder ends with a slash; no panic |
| BuilderFacts.GraftNothing | internal/pkg/fs/fs.go:191-229 | a remainder with no components changes nothing |
| BuilderFacts.GraftDotPanics | internal/pkg/fs/fs.go:190-202 | a remainder any of whose components is "." or ".." makes the graft panic with the invalid name component |
| BuilderFacts.GraftRun | internal/pkg/fs/fs.go:199-224 | walking the grafted remainder goes down the new directories and ends, successfully, on the leaf built from the descriptor |
| Builder.Set | internal/pkg/fs/fs.go:260-291 | a bad mode panics as such, and only a bad mode does; a panic that changed the tree is the invalid name component; a lookup stopped by a non-directory panics with the directory disagreement and leaves the tree unchanged |
| Builder.SetEffect | internal/pkg/fs/fs.go:273-290 | `Set` leaves the tree unchanged, or grafts below the node where the lookup found a child missing, or updates the node found in place when its directory bit agrees with an accepted descriptor |
| Builder.SetPreservesWf | internal/pkg/fs/fs.go:256-291 | `Set` keeps a well-formed file system well-formed (payloads match modes, child names valid and distinct), whether or not it panics |
| BuilderFacts.SetCases | internal/pkg/fs/fs.go:273-290 | a `Set` that does not panic updated an existing node of the same kind in place, or grafted below a missing child without panicking |
| BuilderFacts.SetThenFind | internal/pkg/fs/fs.go:256-259 | after a `Set` that did not panic, looking the name up the way `Set` does finds a node with the descriptor's mode, fault and, for a non-directory, content |
| BuilderFacts.SetIdempotent | internal/pkg/fs/fs.go:256-259 | setting the same entry a second time changes nothing |
| BuilderFacts.SetUnderNonDirectoryPanics | internal/pkg/fs/fs.go:273-276 | a name below an existing non-directory is refused before any change, with the bad-mode panic for a bad mode and the directory disagreement otherwise |
| BuilderFacts.SetKindMismatch | internal/pkg/fs/fs.go:280-284 | `Set` on an existing name whose directory bit differs from an accepted descriptor's panics with the directory disagreement and leaves the tree unchanged |
| BuilderFacts.SetDotPanics | internal/pkg/fs/fs.go:260-273 | with an accepted descriptor, a "." or ".." component right below an existing node panics with the invalid name component during the lookup, leaving the tree unchanged |
| BuilderFacts.SetGrafts | internal/pkg/fs/fs.go:273-278 | with an accepted descriptor, a lookup stopped by a missing child makes `Set` graft the rest of the name below the node reached, with the graft's panic |
| BuilderFacts.SetGraftDotPanics | internal/pkg/fs/fs.go:273-278 | with an accepted descriptor, a "." or ".." component in the part of the name the lookup found missing makes `Set` panic with the invalid name component |
| BuilderFacts.SetFrame | internal/pkg/fs/fs.go:277-290 | `Set` changes no node whose address is neither a prefix nor an extension of the address the lookup reached |
| Tree.ReplaceFrame | internal/pkg/fs/fs.go:284-289 | replacing the node at one address leaves every node off that path unchanged |
| BuilderFacts.FindStepsOverSymlink | internal/pkg/fs/fs.go:138-158 | looking up the name of an existing symlink without following ends, successfully, on the directory that holds the link |
| BuilderFacts.SetOverSymlinkPanics | internal/pkg/fs/fs.go:277-284 | `Set` on the name of an existing symlink, with an accepted non-directory descriptor, panics with the directory disagreement and leaves the tree unchanged |
| BuilderFacts.SetDirectoryOverSymlink | internal/pkg/fs/fs.go:277-289 | `Set` on the name of an existing symlink, with an accepted directory descriptor, updates the mode and fault of the directory holding the link in place and does not panic |
| Builder.Build | internal/pkg/fs/fs.go:250-252 | applying entries one by one keeps the file system well-formed; no entries change nothing |
| Builder.NewVirtualFileSystem | internal/pkg/fs/fs.go:242-254 | the file system built is well-formed, and with no entries it is the empty root directory |
| Facade.Read | internal/pkg/fs/fs.go:302-316 | a non-regular file gives the bad-mode error and nothing else; otherwise it copies as many unread bytes as fit, the next ones in order, and moves the position past them; end of file exactly when the buffer is not empty and nothing is left; the position never passes the end |
| Facade.ReadAll | internal/pkg/fs/fs.go:307-313 | reading a regular file to the end yields exactly its content from the current position, and the last read reports end of file at the end |
| Facade.Readdir | internal/pkg/fs/fs.go:318-334 | not-a-directory exactly for a non-directory; a panic exactly for a directory and a positive count; no list exactly for an empty directory; otherwise every child in insertion order |
| Facade.Open | internal/pkg/fs/fs.go:344-352 | `Open` panics exactly when the lookup does, succeeds exactly when the lookup succeeds, on that node at position zero, and otherwise fails with the halt's error |
| Facade.Stat | internal/pkg/fs/fs.go:354-360 | `Stat` succeeds, fails or panics exactly when `Open` does, with the same node and the same error |
| FacadeFacts.CheckedAsPlain | internal/pkg/fs/fs.go:113-158 | in a tree with no faults and no symlinks, the lookup of `Open` gives the same result as the lookup of `Set` |
| FacadeFacts.OpenFaultyRoot | internal/pkg/fs/fs.go:344-360 | a fault injected at the root makes `Open` and `Stat` of every name fail with that fault |
| FacadeFacts.OpenFaultyParent | internal/pkg/fs/fs.go:344-360 | in a tree without symlinks whose only injected fault is `e`, `Open` and `Stat` of any name below a directory carrying `e` fail with `e` |
| FacadeFacts.OpenDotPanics | internal/pkg/fs/fs.go:184-187 | with a fault-free root, `Open` and `Stat` of "/." and "/.." panic with the invalid name component |
| FacadeFacts.SetOverRootSymlinkFaultsAll | internal/pkg/fs/fs.go:277-289 | `Set` of "/" + the name of a symlink in the root, with an accepted directory descriptor, overwrites the root's mode and fault in place, so a fault in the descriptor makes every later `Open` fail with it |
| FacadeFacts.OpenMissingChild | internal/pkg/fs/fs.go:344-352 | in a tree with no faults and no symlinks, `Open` and `Stat` of a name below a directory that lacks its next component fail with not-exist |
| FacadeFacts.OpenUnderNonDirectory | internal/pkg/fs/fs.go:344-352 | in a tree with no faults and no symlinks, `Open` and `Stat` of a name below a non-directory fail with ENOTDIR |
| FacadeFacts.SetThenOpen | internal/pkg/fs/fs.go:344-352 | after setting a fault-free entry, opening its name gives a descriptor at position zero on a node with the descriptor's mode, no fault and, for a non-directory, its content |
| FacadeFacts.SetFaultThenOpen | internal/pkg/fs/fs.go:232-234 | after setting an entry with an injected fault, `Open` and `Stat` of its name fail with exactly that fault |
| FacadeFacts.ReadBack | internal/pkg/fs/fs.go:302-316 | setting a regular file, opening it and reading it to the end gives back the content that was set |
| FacadeFacts.ReaddirDistinct | internal/pkg/fs/fs.go:318-334 | in a well-formed tree, looking up the name of each listed entry finds that entry, so no name is listed twice |
| Scenarios.CycleExhaustsLinks | internal/pkg/fs/fs.go:139-144 | two symlinks pointing at each other are followed until the links run out, and the walk fails with too many links |
| Scenarios.OpenLinkCycle | internal/pkg/fs/fs.go:344-352 | in a fault-free root directory holding two symlinks whose absolute targets name each other, opening either link fails with too many links |
| Scenarios.OpenCycle | internal/pkg/fs/fs.go:141-144 | opening "/x" in a root holding "/x -> /y" and "/y -> /x" fails with too many links |
| Scenarios.OpenMissingInEmpty | internal/pkg/fs/fs.go:95-101 | opening or stating "/a/x" in an empty file system fails with not-exist |
| Scenarios.TrailingSlashMakesDirectory | internal/pkg/fs/fs.go:217-227 | setting "a/" on an empty file system adds a default directory "a" and ignores the descriptor |

## Left out

- The `osFileSystem` wrapper is left out. It delegates every call to the operating system.
- `EvalSymlinks`, `Mkdir`, `MkdirAll`, `Lstat`, `Close`, `trimTrailingSlashes` and `IsPathSeparatorWindows` are left out. None of them is part of the resolver, builder or descriptor core modelled here.
- The `os.FileInfo` methods of nodes are left out. `Readdir` and `Stat` return the nodes themselves.
- The Docker progress parser in `internal/pkg/container/service/docker/progress_test.go` is left out. It is unrelated to the file system.
- `node`, `newDirNode`, `dirLookup` and `dirAppend` are defined outside `fs.go`, so their code is not cited here. The model gives them this behaviour:
  - `dirLookup` finds the first child with exactly the given name;
  - `dirAppend` appends at the end;
  - `newDirNode` makes a directory whose mode always has the directory bit ORed in. Otherwise the root, created with mode 0, could not be walked.
- Go map iteration order is left out. `NewVirtualFileSystem` takes its entries as a sequence, in the order given.
- Aliasing between a descriptor and the tree is left out. A descriptor holds the node as it was when opened. A `Set` after `Open` is not seen through it.
- The working directory is the constant "/". The constructor sets it so, and nothing in the core changes it.
- Injected faults are any `Error` value (`Other(code)` for caller-defined errors). Go compares error values by identity, and the model compares them by equality.
- Facade.Read: requires the read position to be within the content. Every descriptor `Open` creates starts there, and `Read` keeps it there. A position past the end, which a Go slice would reject with a panic, is not modelled.
- BuilderFacts.SetThenFind: stated only for names without a trailing slash and for descriptors that are not symlinks. A trailing slash makes a default directory instead (`Scenarios.TrailingSlashMakesDirectory`), and a symlink leaf is stepped over by the lookup.
- BuilderFacts.SetIdempotent: stated under the same two conditions as `SetThenFind`.
- FacadeFacts.SetThenOpen: stated under the same two conditions as `SetThenFind`, and only for trees with no faults and no symlinks, where `Open`'s lookup agrees with `Set`'s.
- FacadeFacts.SetFaultThenOpen: stated under the same conditions as `SetThenOpen`.
- FacadeFacts.ReadBack: stated under the same conditions as `SetThenOpen`.
- Scenarios.CycleExhaustsLinks: stated for two links in the root directory that point at each other. Longer cycles and links in subdirectories are not covered.
