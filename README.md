# FitNesse test-system configuration, modelled in Dafny

FitNesse runs the tests of a wiki page in a separate runner process. Before it launches
that process, `TestSystem` works out four things from the page's variables:

- which runner program to start: `TEST_RUNNER`, or a default that depends on `TEST_SYSTEM`;
- which command-line pattern to use, for a normal launch or a remote-debug launch;
- which path separator to use;
- which environment variable, if any, carries the classpath.

It then fills the classpath (`%p`) and the runner (`%m`) into the pattern. The nested
`Descriptor` class does the resolution. Two descriptors are equal when their four derived
strings are equal: name, runner, pattern and separator.

The model has four modules:

- `TestSystem` (`test_system.dfy`) models the static helpers `replace` and
  `getTestSystemType`, the instance methods `buildCommand` and `createClasspathEnvironment`,
  and the whole of `Descriptor`, each as a function. Neither instance method changes the
  test system's state. `createClasspathEnvironment` reads a variable of the test system's
  page, so its model takes that page's variables as a parameter. A page-variable lookup is
  a `map<string, string>`: a variable that is not defined is a name that is not a key.
- `TestSystemFacts` (`test_system_facts.dfy`) holds the lemmas about the precedence rules,
  the substitution order, the type prefix, and equality and hashing.
- `JavaLang` (`java_lang.dfy`) models the `java.lang.String` methods the code relies on:
  `indexOf`, `contains`, `toLowerCase`, `equalsIgnoreCase`, `replace`, `split` and
  `hashCode`, and the decimal form of an `int`. All but `hashCode` have a contract or lemmas
  of their own. `hashCode` is Java's polynomial formula in 32-bit arithmetic; the model
  only relies on it being a function of the string.
- `Lifecycle` (`lifecycle.dfy`) holds the parts that update fields: the two flags,
  `getExecutionLog`, `exceptionOccurred`, and the forwarding of events to the listener.
  These are methods of a class.

A Java call that can throw returns a `Result`. `getTestSystemType` takes element 0 of
`split(":")`. For a non-empty name made only of colons, `split` returns an empty array and
the indexing throws `ArrayIndexOutOfBoundsException`. That failure passes through
`defaultTestRunner`, `getTestRunnerNormal`, `getTestSystemName`, `getTestRunner`, `equals`
and `hashCode`, exactly as the exception would. The host's `path.separator` system
property is the explicit parameter `host`.

The model follows the code on these points:

- The test-system name is the whole `TEST_SYSTEM` value, a colon, and the normal runner.
  It is not just the type before the first colon, and it uses the normal runner even in
  remote-debug mode.
- The debug rewrite lower-cases the whole runner string only when it finds `runner.exe`.
  Otherwise the runner keeps its case.
- `replace` substitutes only the first occurrence of a mark. The `String.replace` used for
  the debug runner substitutes every occurrence.

## Model

| member | source | states |
|---|---|---|
| `JavaLang.IndexOfFrom` | src/fitnesse/testsystems/TestSystem.java:51 | the result is -1 when `mark` does not occur at or after `from`; otherwise it is an occurrence at or after `from` with none between `from` and it |
| `JavaLang.IndexOf` | src/fitnesse/testsystems/TestSystem.java:51 | `indexOf` is -1 exactly when `mark` occurs nowhere; otherwise it is an occurrence with no earlier one |
| `JavaLang.Contains` | src/fitnesse/testsystems/TestSystem.java:137 | `contains` holds exactly when the mark occurs at some index |
| `JavaLang.ToLower` | src/fitnesse/testsystems/TestSystem.java:137-138 | `toLowerCase` keeps the length, lower-cases each character on its own, and gives a lower-case string |
| `JavaLang.EqualsIgnoreCaseIff` | src/fitnesse/testsystems/TestSystem.java:153 | `equalsIgnoreCase` holds exactly when the two lower-case forms are equal |
| `JavaLang.ReplaceAll` | src/fitnesse/testsystems/TestSystem.java:138-139 | `String.replace` leaves a string without the target unchanged |
| `JavaLang.ReplaceAllJoin` | src/fitnesse/testsystems/TestSystem.java:138-139 | `String.replace` rewrites every occurrence: target-free fields joined by an unbordered target come back joined by the replacement |
| `JavaLang.IndexOfAfterHead` | src/fitnesse/testsystems/TestSystem.java:138-139 | in `head + t + rest` with `t` unbordered and absent from `head`, the first occurrence of `t` is right after `head` |
| `JavaLang.ReplaceAllInserts` | src/fitnesse/testsystems/TestSystem.java:138-139 | the replacement stands where the first occurrence of the target was |
| `JavaLang.ReplaceAllKeepsLower` | src/fitnesse/testsystems/TestSystem.java:137-139 | replacing inside a lower-case string with a lower-case replacement gives a lower-case string |
| `JavaLang.SplitAll` | src/fitnesse/testsystems/TestSystem.java:67 | there is at least one field, and no field contains the separator |
| `JavaLang.SplitJoin` | src/fitnesse/testsystems/TestSystem.java:67 | joining the fields with the separator gives back the original string |
| `JavaLang.SplitFirstField` | src/fitnesse/testsystems/TestSystem.java:67 | the first field is the text before the first separator |
| `JavaLang.SplitAllEmpty` | src/fitnesse/testsystems/TestSystem.java:67 | every field is empty exactly when the string is made of separators only |
| `JavaLang.DropTrailingEmpty` | src/fitnesse/testsystems/TestSystem.java:67 | the result is a prefix of the fields that does not end in an empty string; only empty strings are dropped |
| `JavaLang.PrefixBefore` | src/fitnesse/testsystems/TestSystem.java:67 | the result is a prefix without the separator that ends at the end of the string or at a separator |
| `JavaLang.SplitFirst` | src/fitnesse/testsystems/TestSystem.java:67-68 | `split` returns no element exactly for a non-empty string of separators only; otherwise element 0 is the text before the first separator |
| `JavaLang.IntToString` | src/fitnesse/testsystems/TestSystem.java:81 | the decimal form is non-empty and starts with '-' exactly for a negative number; the rest is digits with no leading zero; it is "0" exactly for zero |
| `JavaLang.IntToStringRoundTrip` | src/fitnesse/testsystems/TestSystem.java:81 | parsing the decimal form gives back the number |
| `TestSystem.Replace` | src/fitnesse/testsystems/TestSystem.java:50-56 | an absent mark leaves the value unchanged; otherwise the length changes by the replacement's length minus the mark's |
| `TestSystemFacts.ReplaceFirstOccurrence` | src/fitnesse/testsystems/TestSystem.java:50-56 | with `i` the first occurrence of the mark, the result is the text before `i`, then the replacement, then the text after the mark |
| `TestSystemFacts.ReplaceKeepsLaterOccurrences` | src/fitnesse/testsystems/TestSystem.java:50-56 | every later occurrence of the mark survives, shifted by the change in length |
| `TestSystem.BuildCommand` | src/fitnesse/testsystems/TestSystem.java:42-47 | building the command throws exactly when the selected runner cannot be resolved |
| `TestSystemFacts.ReplaceBothMarks` | src/fitnesse/testsystems/TestSystem.java:42-47 | for `pre %p mid %m post` with no `%` before the `%m`, the two marks are substituted where they stand and `post` is kept verbatim |
| `TestSystemFacts.ReplaceMarkFromClasspath` | src/fitnesse/testsystems/TestSystem.java:42-47 | a `%m` that the classpath brings in is the one that gets the runner, and the pattern's own text after `%p` is left untouched |
| `TestSystemFacts.BuildCommandWellFormed` | src/fitnesse/testsystems/TestSystem.java:42-47 | for a descriptor whose pattern is `pre %p mid %m post`, where `pre`, `mid` and the classpath contain no `%`, the command is `pre classpath mid runner post` |
| `TestSystemFacts.BuildCommandNoMarks` | src/fitnesse/testsystems/TestSystem.java:42-47 | a pattern with neither mark is the command unchanged |
| `TestSystemFacts.BuildCommandClasspathMark` | src/fitnesse/testsystems/TestSystem.java:42-47 | for a descriptor, a `%m` in the classpath receives the runner because `%p` is substituted first |
| `TestSystemFacts.BuildCommandDefault` | src/fitnesse/testsystems/TestSystem.java:16-19 | without `COMMAND_PATTERN` in normal mode, and with no `%` in the host separator or the classpath, the command is `java -cp fitnesse.jar`, then the host separator, the classpath, a space and the runner |
| `TestSystemFacts.BuildCommandExample` | src/fitnesse/testsystems/TestSystem.java:42-47 | the pattern `%p run %m` with classpath `/lib` and runner `X` gives `/lib run X` |
| `TestSystem.ClasspathEnvironment` | src/fitnesse/testsystems/TestSystem.java:99-106 | there is no map exactly when `CLASSPATH_PROPERTY` is undefined; otherwise the map has one key, the property's value, bound to the classpath |
| `TestSystemFacts.TestSystemTypeIsPrefix` | src/fitnesse/testsystems/TestSystem.java:66-69 | the type is the text before the first colon; it throws exactly for a non-empty name made of colons only |
| `TestSystemFacts.SystemNameTypeIsSystemPrefix` | src/fitnesse/testsystems/TestSystem.java:127-131 | the type of the composite name is the text of `TEST_SYSTEM` before its first colon; it throws exactly when both parts are made of colons only |
| `TestSystemFacts.TestSystemNameShape` | src/fitnesse/testsystems/TestSystem.java:120-131 | the test system defaults to `fit`; the name is the test system, a colon and the normal runner; it fails exactly when the normal runner fails; it does not depend on the remote-debug flag |
| `TestSystemFacts.NormalRunnerSelection` | src/fitnesse/testsystems/TestSystem.java:144-157 | `TEST_RUNNER` is taken verbatim; without it, the runner is SlimService exactly when the type lower-cased is `slim`, and FitServer otherwise |
| `TestSystemFacts.SlimDefaultExample` | src/fitnesse/testsystems/TestSystem.java:151-157 | `TEST_SYSTEM` `slim:MyRunner` gives type `slim` and runner SlimService |
| `TestSystemFacts.DebugRunnerForSpec` | src/fitnesse/testsystems/TestSystem.java:133-142 | a runner containing `runner.exe` in any case is rewritten wholly to lower case, with `runnerw.exe` at the first match; any other runner keeps its case |
| `TestSystemFacts.DebugRunnerEveryOccurrence` | src/fitnesse/testsystems/TestSystem.java:133-142 | every `runner.exe` is rewritten: when the lower-case runner is `runner.exe`-free fields joined by `runner.exe`, the result is the same fields joined by `runnerw.exe`; with no match the runner is returned as it is |
| `TestSystemFacts.DebugRunnerSingleOccurrence` | src/fitnesse/testsystems/TestSystem.java:133-142 | when the lower-case runner contains `runner.exe` exactly once, the result is the lower-case runner with that one occurrence replaced by `runnerw.exe` |
| `TestSystemFacts.TestRunnerSelection` | src/fitnesse/testsystems/TestSystem.java:160-165 | normal mode gives the normal runner; debug mode gives `REMOTE_DEBUG_RUNNER` verbatim, or else the debug rewrite of the normal runner, failing exactly when the normal runner fails |
| `TestSystemFacts.CommandPatternSelection` | src/fitnesse/testsystems/TestSystem.java:167-190 | normal mode: `COMMAND_PATTERN`, else the default pattern. Debug mode: `REMOTE_DEBUG_COMMAND`, else `COMMAND_PATTERN` when it is defined and does not mention `java` in any case, else the Java debug command, which does not depend on the host |
| `TestSystemFacts.PathSeparatorSelection` | src/fitnesse/testsystems/TestSystem.java:192-197 | `PATH_SEPARATOR` wins over the host separator, whatever the remote-debug flag |
| `TestSystemFacts.KeyFailure` | src/fitnesse/testsystems/TestSystem.java:200-203 | the four derived strings can be computed exactly when the name can |
| `TestSystemFacts.EqualsIffSameKey` | src/fitnesse/testsystems/TestSystem.java:205-215 | `equals` on two descriptors throws exactly when the derived strings of either one cannot be computed; otherwise it holds exactly when the four derived strings are equal |
| `TestSystemFacts.EqualsOtherObjects` | src/fitnesse/testsystems/TestSystem.java:206-208 | `equals(null)` and `equals` on an object of another class are false |
| `TestSystemFacts.EqualsIsEquivalence` | src/fitnesse/testsystems/TestSystem.java:205-215 | where it does not throw, `equals` is reflexive, symmetric and transitive |
| `TestSystemFacts.SameKeySameHashCode` | src/fitnesse/testsystems/TestSystem.java:200-203 | the hash code depends on the four derived strings only |
| `TestSystemFacts.EqualsImpliesEqualHashCode` | src/fitnesse/testsystems/TestSystem.java:200-215 | equal descriptors have the same hash code |
| `TestSystemFacts.EqualsIgnoresUnderlyingData` | src/fitnesse/testsystems/TestSystem.java:205-215 | for all descriptors, whatever their variables and flags: when the four derived strings can be computed and agree, `equals` holds both ways and the hash codes agree |
| `TestSystemFacts.EqualsIgnoresUnderlyingDataExample` | src/fitnesse/testsystems/TestSystem.java:205-215 | an example pair with different variables and different remote-debug flags that compares equal |
| `Lifecycle.AbortReason` | src/fitnesse/testsystems/TestSystem.java:81 | the reason is the fixed text followed by the exit code in canonical decimal form (a '-' exactly for a negative code, no leading zero), and the exit code can be read back from it |
| `Lifecycle.TestSystem.constructor` | src/fitnesse/testsystems/TestSystem.java:30-33 | a new test system keeps its listener, has both flags clear and has no log |
| `Lifecycle.TestSystem.SetFastTest` | src/fitnesse/testsystems/TestSystem.java:58-60 | sets the fast-test flag and changes nothing else |
| `Lifecycle.TestSystem.SetManualStart` | src/fitnesse/testsystems/TestSystem.java:62-64 | sets the manual-start flag and changes nothing else |
| `Lifecycle.TestSystem.GetExecutionLog` | src/fitnesse/testsystems/TestSystem.java:35-38 | a log the variant creates becomes the current log and is returned; an exception from the variant propagates and leaves the log in place |
| `Lifecycle.TestSystem.AcceptOutputFirst` | src/fitnesse/testsystems/TestSystem.java:71-73 | the listener receives exactly this output, after everything it had before |
| `Lifecycle.TestSystem.TestComplete` | src/fitnesse/testsystems/TestSystem.java:75-77 | the listener receives exactly this summary, after everything it had before |
| `Lifecycle.TestSystem.ExceptionOccurred` | src/fitnesse/testsystems/TestSystem.java:79-83 | with a log: one exception and one reason carrying the unchanged exit code are appended, then the listener receives the exception. Without a log: a NullPointerException, and nothing is recorded or forwarded |

## Left out

- `start`, `bye`, `kill`, `isSuccessfullyStarted` and `runTestsAndGenerateHtml` (TestSystem.java:85-93) are abstract. They launch and manage an external process, and no implementation is part of this model.
- `createExecutionLog` (line 40) is abstract and opens a socket. Its outcome, a new log or a socket exception, is the parameter of `GetExecutionLog`.
- `getDescriptor` (lines 95-97) only calls the constructor. A descriptor is the value `Descriptor(data, remoteDebug)`.
- The `page` field (lines 23, 31) is dropped. The variable lookup that `createClasspathEnvironment` makes on it (line 100) is the `pageVariables` parameter of `TestSystem.ClasspathEnvironment`.
- The `pageFactory` field (lines 109, 116) plays no part in any derivation.
- `System.getProperties().get("path.separator")` (lines 18, 195) reads host state. It is the parameter `host`.
- Threads are not modelled. In the running system, the listener callbacks and `exceptionOccurred` may come from a process-monitoring thread.
- The `IOException`s the listener may throw are not modelled.
- ExecutionLog.java, TestSummary.java and the listener interface are not part of this model. The log is reduced to an `int` exit code and two sequences, the summary to four counts, and the listener to the list of events it receives.
- JavaLang.ToLower: case mapping covers ASCII letters only; Java's `toLowerCase` also maps other Unicode letters and depends on the default locale.
- JavaLang.EqualsIgnoreCase: compares ASCII letters up to case only, for the same reason.
- JavaLang.ReplaceAll: requires a non-empty target. Java's `replace` with an empty target inserts the replacement between characters; the only call passes the non-empty constant `runner.exe`.
- JavaLang.ReplaceAllJoin: states the every-occurrence rewrite for unbordered targets only, where occurrences cannot overlap; `runner.exe`, the only target the code passes, is unbordered (`TestSystemFacts.RunnerExeUnbordered`).
- JavaLang.HashCode: hashes each character's code point. Java hashes UTF-16 code units, so the two differ for characters outside the Basic Multilingual Plane.
- `TestSystem.Descriptor.Equals` models the `getClass()` test with three cases: null, an object of another class, and a descriptor. Subclasses of `Descriptor` are not modelled.
