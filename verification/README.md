# classfinder in Dafny

A model of the core of `com.poolik.classfinder`. This Java library
searches jars, zips and directories for compiled classes and keeps the
classes that pass a filter.

- A `ClassFinder` records the places to search. They are keyed by
  absolute path, in insertion order.
- Adding a jar also adds what its manifest's `Class-Path` attribute
  names. `ClassFinder.add` adds one path per `Class-Path` key: the last
  entry joined to the jar's directory, or the empty path when the value has
  no entries. `JarClassPathentriesLoader` adds one path per entry.
- A search loads every class file it can reach into a map keyed by
  class name. It then returns, in the map's order, the records that the
  filter accepts. It fails with "Didn't find any classes" when nothing is
  accepted and the finder was told to treat that as an error.
- Each record is a `ClassInfo`. It holds the binary class name, the
  superclass and interfaces, the reflection modifier bits, the location,
  and sets of fields, methods and annotations.
- Filters can ask a `ClassHierarchyResolver` for the superclasses and
  interfaces of a record among the loaded classes.

Modules, one file each:

| file | module | models |
|---|---|---|
| optional.dfy | Optional | `Option`, `Result` |
| text.dfy | Text | the `String`/`StringTokenizer` operations used: `replace`, `endsWith`, `toLowerCase` (ASCII), default tokenizing, `hashCode` |
| access_flags.dfy | AccessFlags | the twelve class-file access flags (sections 4.1, 4.5 and 4.6 of the Java Virtual Machine Specification) and `convertAccessMaskToModifierMask` |
| annotation_info.dfy | Annotations | `AnnotationInfo` |
| field_info.dfy | Fields | `FieldInfo` |
| method_info.dfy | Methods | `MethodInfo` |
| class_info.dfy | Classes | `ClassInfo`: construction, `toString`, the three visits |
| hierarchy.dfy | Hierarchy | `ClassHierarchyResolver` and the counting `findAllSuperClasses`/`findAllInterfaces` of `ClassFinder` |
| filters.dfy | Filters | `Or`, `Annotated`; every other filter is an uninterpreted leaf |
| seqs.dfy | Seqs | order-preserving filtering of sequences |
| registries.dfy | Registries | the insertion-ordered map of loaded classes (`LinkedHashMap`) |
| suffix_visitor.dfy | SuffixVisitor | `SuffixFileVisitor` |
| paths.dfy | Paths | `isJar`, `isZip`, and the `File` path arithmetic used (absolute path, parent) |
| manifests.dfy | Manifests | `Class-Path` expansion: `JarClassPathentriesLoader` and `ClassFinder.loadJarClassPathEntries` |
| loading.dfy | Loading | `ParallelClassLoader` and the identical loading code inside `ClassFinder` |
| finder.dfy | Finder | `ClassFinder`: adding places, `clear`, `findClasses`, `filterClasses` |

Modelling choices:

- The file system, the manifests and the ASM class reader are
  parameters: `Loading.FileSystem`, `Finder.Env`, and a reader function
  `(bytes, location) -> Option<ClassInfo>`.
- The resolver's recursion keeps no visited set, so on cyclic
  declarations it never stops. The model keeps the recursion as written
  and requires the loaded map to be acyclic (`Hierarchy.Acyclic`).
- `add` can be re-entered through manifest expansion. It terminates in
  the model because the places that can hold classes form a finite set
  (`Env.containers`), and every new place comes from that set.
- Java exceptions that the code does not catch become `Option`/`Result`
  values. These are the null dereferences in `ClassInfo.toString` and in
  `MethodInfo.hashCode` (reached from `visitMethod`), and the search's
  `ClassFinderException`.
- Filters carry an object identity (`ref`). No filter class overrides
  `equals`, so `Or.removeFilter` finds the filter to remove by reference,
  and two filters built alike are different filters. Distinct objects
  are taken to have distinct refs; the datatype does not enforce this.

## Model

Source paths are relative to the repository root.

| member | source | states |
|---|---|---|
| Text.TranslateInternalName | src/main/java/com/poolik/classfinder/info/ClassInfo.java:252-254 | the binary name has the internal name's length and contains no '/'; each '/' becomes '.' and every other character stays in place |
| Text.TokensOfJoinWords | src/main/java/com/poolik/classfinder/resourceLoader/JarClassPathentriesLoader.java:40-48 | tokenizing a space-separated list of tokens gives back the list, in order |
| AccessFlags.ConvertAccessMask | src/main/java/com/poolik/classfinder/info/ClassInfo.java:296-338 | the twelve conditional ORs amount to keeping exactly the low twelve bits of the mask |
| AccessFlags.ConvertSetsExactlyItsBit | src/main/java/com/poolik/classfinder/info/ClassInfo.java:296-338 | each access flag sets exactly its own modifier bit, and no bit outside the twelve is ever set |
| AccessFlags.ConvertIgnoresOtherBits | src/main/java/com/poolik/classfinder/info/ClassInfo.java:296-338 | input bits outside the twelve flags do not affect the result |
| AccessFlags.SourceOrderCoversAll | src/main/java/com/poolik/classfinder/info/ClassInfo.java:300-335 | the flags the conversion checks, in the source's order, cover all twelve modifier bits |
| Annotations.DescriptorToNameAsWritten | src/main/java/com/poolik/classfinder/info/AnnotationInfo.java:13-15 | the name as the code computes it contains no 'L', ';' or '/' and is no longer than the descriptor |
| Annotations.AsWrittenStripsEveryL | src/main/java/com/poolik/classfinder/info/AnnotationInfo.java:13-15 | for "L" + s + ";", the code's name is s with every 'L' removed and then '/' translated |
| Annotations.AsWrittenOnPlainDescriptor | src/main/java/com/poolik/classfinder/info/AnnotationInfo.java:13-15 | for "L" + s + ";" with no 'L' or ';' in s, the name is s translated |
| Annotations.LDroppedFromName | src/main/java/com/poolik/classfinder/info/AnnotationInfo.java:13-15 | the descriptor of `p.Log` yields `p.og`; the corrected conversion yields `p.Log` |
| Annotations.DescriptorToNameOfDescriptor | src/main/java/com/poolik/classfinder/info/AnnotationInfo.java:13-15 | the corrected conversion strips exactly the leading 'L' and the trailing ';', then translates |
| Annotations.NameDescriptorRoundTrip | src/main/java/com/poolik/classfinder/info/AnnotationInfo.java:13-15 | the corrected conversion inverts building a descriptor from a binary name |
| Annotations.CorrectedAgreesOnPlainDescriptor | src/main/java/com/poolik/classfinder/info/AnnotationInfo.java:13-15 | the corrected and the as-written conversions agree on "L" + s + ";" whenever s has no 'L' or ';' |
| Annotations.NewAnnotationInfo | src/main/java/com/poolik/classfinder/info/AnnotationInfo.java:8-15 | the visibility flag is stored unchanged; the name has no 'L', ';' or '/', and for "L" + s + ";" with no ';' in s it is s without its 'L's, translated |
| Annotations.NewAnnotationInfoCorrected | src/main/java/com/poolik/classfinder/info/AnnotationInfo.java:8-15 | with the corrected conversion the name of "L" + s + ";" is s translated, for any s; the record equals the code's whenever s has no 'L' or ';' |
| Annotations.AnnotationEqualsIsEquality | src/main/java/com/poolik/classfinder/info/AnnotationInfo.java:25-35 | `equals` holds exactly when name and visibility both match, which is value equality |
| Annotations.AnnotationHashConsistent | src/main/java/com/poolik/classfinder/info/AnnotationInfo.java:37-42 | equal annotation infos have equal hash codes |
| Annotations.VisibilityDistinguishes | src/main/java/com/poolik/classfinder/info/AnnotationInfo.java:25-35 | the same descriptor with different visibility gives unequal infos |
| Fields.FieldEqualsIgnoresOnlyAccess | src/main/java/com/poolik/classfinder/info/FieldInfo.java:81-91 | two fields are equal exactly when they coincide once their access flags are cleared |
| Fields.FieldEqualsIsEquivalence | src/main/java/com/poolik/classfinder/info/FieldInfo.java:81-91 | field equality is reflexive, symmetric and transitive |
| Fields.FieldHashConsistent | src/main/java/com/poolik/classfinder/info/FieldInfo.java:93-99 | equal fields have equal hash codes |
| Fields.FieldToStringRespectsEquality | src/main/java/com/poolik/classfinder/info/FieldInfo.java:108-110 | equal fields print the same; a field without a signature prints its name |
| Methods.MethodHashAsWritten | src/main/java/com/poolik/classfinder/info/MethodInfo.java:83-86 | the hash is defined exactly when a signature is present |
| Methods.HashFailsWithoutSignature | src/main/java/com/poolik/classfinder/info/MethodInfo.java:83-86 | a method without a signature has no hash: the code dereferences null |
| Methods.MethodHash | src/main/java/com/poolik/classfinder/info/MethodInfo.java:83-86 | the corrected hash agrees with the code whenever a signature is present |
| Methods.MethodEqualsIsEquality | src/main/java/com/poolik/classfinder/info/MethodInfo.java:88-100 | `equals` compares every component, so it is value equality |
| Methods.MethodHashConsistent | src/main/java/com/poolik/classfinder/info/MethodInfo.java:83-100 | equal methods have equal corrected hash codes |
| Methods.MethodHashAsWrittenConsistent | src/main/java/com/poolik/classfinder/info/MethodInfo.java:83-100 | equal methods with a signature have equal hash codes |
| Methods.MethodToStringRespectsEquality | src/main/java/com/poolik/classfinder/info/MethodInfo.java:102-104 | equal methods print the same; a method without a signature prints its name |
| Classes.TranslateAll | src/main/java/com/poolik/classfinder/info/ClassInfo.java:279-285 | interface names are translated element by element, keeping length and order |
| Classes.NewClassInfo | src/main/java/com/poolik/classfinder/info/ClassInfo.java:96-102 | translated class name; no superclass exactly when it is absent or `java/lang/Object`; interfaces translated in order, absent stays absent; location kept; the three sets start empty |
| Classes.NewClassInfoModifiers | src/main/java/com/poolik/classfinder/info/ClassInfo.java:266-288 | the record's modifier has exactly the bits of the access flags set in the mask |
| Classes.LocationKept | src/main/java/com/poolik/classfinder/info/ClassInfo.java:144-146 | `getClassLocation` returns the location given to the constructor |
| Classes.ToString | src/main/java/com/poolik/classfinder/info/ClassInfo.java:156-190 | fails exactly when the interface array is null; starts with "public " exactly when the class is public; ends with " extends S" for a superclass S other than `java.lang.Object` |
| Classes.KindPrefixWords | src/main/java/com/poolik/classfinder/info/ClassInfo.java:160-169 | the words before the name, per flag: "public " first when public, then "abstract " when abstract, then "interface " for an interface and "class " otherwise |
| Classes.ToStringStartsWithName | src/main/java/com/poolik/classfinder/info/ClassInfo.java:157-171 | for every record with an interface array, the rendering starts with those words followed by the class name |
| Classes.ToStringAfterName | src/main/java/com/poolik/classfinder/info/ClassInfo.java:171-189 | after the class name come the implements clause and then the extends clause, and nothing else |
| Classes.ImplementsClauseFirst | src/main/java/com/poolik/classfinder/info/ClassInfo.java:173-180 | no interfaces give no clause; otherwise it is " implements " and the first interface, then the others, each after a space |
| Classes.SpaceEachAppend | src/main/java/com/poolik/classfinder/info/ClassInfo.java:176-179 | the spaced list of a + b is the spaced list of a followed by that of b |
| Classes.SpaceEachInOrder | src/main/java/com/poolik/classfinder/info/ClassInfo.java:176-179 | each interface follows all those before it, after one space |
| Classes.PublicPrefix | src/main/java/com/poolik/classfinder/info/ClassInfo.java:160-169 | the rendering starts with "public " exactly when the public bit is set |
| Classes.EndsWithExtends | src/main/java/com/poolik/classfinder/info/ClassInfo.java:182-187 | a superclass other than `java.lang.Object` ends the rendering with " extends S" |
| Classes.PublicClassPrefix | src/main/java/com/poolik/classfinder/info/ClassInfo.java:160-169 | a public, non-abstract class is rendered starting with "public class " |
| Classes.RenderPublicSubclass | src/main/java/com/poolik/classfinder/info/ClassInfo.java:156-190 | the complete rendering of a public subclass with no interfaces |
| Classes.RenderPublicImplementer | src/main/java/com/poolik/classfinder/info/ClassInfo.java:156-190 | the complete rendering of a public class with one interface and no superclass |
| Classes.ToStringOfPublicSubclass | src/test/java/com/poolik/classfinder/info/ClassInfoTest.java:32 | a public subclass built by the constructor prints as "public class N extends S" |
| Classes.ToStringOfPublicImplementer | src/test/java/com/poolik/classfinder/info/ClassInfoTest.java:34 | a public implementer of one interface prints as "public class N implements I" |
| Classes.VisitField | src/main/java/com/poolik/classfinder/info/ClassInfo.java:202-214 | only the field set changes; it grows by the new field unless an equal field (access ignored) is already there, in which case nothing changes |
| Classes.VisitFieldKeepsDistinct | src/main/java/com/poolik/classfinder/info/ClassInfo.java:202-214 | the field set never holds two distinct fields that are `equals` |
| Classes.VisitMethod | src/main/java/com/poolik/classfinder/info/ClassInfo.java:226-238 | the visit fails (the `NullPointerException` of `MethodInfo.hashCode`) exactly when the method has no signature; otherwise only the method set changes, it holds the method, and nothing else is added or removed |
| Classes.VisitMethodCorrected | src/main/java/com/poolik/classfinder/info/ClassInfo.java:226-238 | with a null-safe hash every method is added and nothing else changes; this agrees with the code whenever the method has a signature |
| Classes.VisitAnnotation | src/main/java/com/poolik/classfinder/info/ClassInfo.java:240-244 | only the annotation set changes; afterwards it holds the info the constructor builds from the descriptor; nothing else is added or removed |
| Classes.VisitsIdempotent | src/main/java/com/poolik/classfinder/info/ClassInfo.java:202-244 | repeating any visit with the same arguments changes nothing |
| Hierarchy.AllSuperClasses | src/main/java/com/poolik/classfinder/ClassHierarchyResolver.java:16-27 | every superclass found is a loaded name mapped to its loaded record |
| Hierarchy.SuperClassesOfRoot | src/main/java/com/poolik/classfinder/ClassHierarchyResolver.java:18-26 | with no superclass, or one that is not loaded, neither the superclass walk nor the superclass part of the interface walk finds anything |
| Hierarchy.SuperClassesStep | src/main/java/com/poolik/classfinder/ClassHierarchyResolver.java:20-23 | a loaded direct superclass is found with its record, together with all of its own superclasses |
| Hierarchy.NotOwnSuperClass | src/main/java/com/poolik/classfinder/ClassHierarchyResolver.java:16-27 | a loaded class is never among its own superclasses |
| Hierarchy.AllInterfaces | src/main/java/com/poolik/classfinder/ClassHierarchyResolver.java:29-41 | every interface found is a loaded name mapped to its loaded record |
| Hierarchy.InterfacesOfSuper | src/main/java/com/poolik/classfinder/ClassHierarchyResolver.java:43-53 | what the superclass contributes consists of loaded records only |
| Hierarchy.AllInterfacesKeys | src/main/java/com/poolik/classfinder/ClassHierarchyResolver.java:29-41 | a name is found exactly when the superclass contributes it or it is reached from a declared name |
| Hierarchy.DeclaredClosureKeys | src/main/java/com/poolik/classfinder/ClassHierarchyResolver.java:33-38 | the loop over declared names ends with the names it started with plus those reached from loaded declared names; unloaded names are skipped |
| Hierarchy.InterfacesIncludeSuper | src/main/java/com/poolik/classfinder/ClassHierarchyResolver.java:29-53 | the interfaces of a loaded superclass are all among the class's interfaces |
| Hierarchy.InterfacesIncludeDeclared | src/main/java/com/poolik/classfinder/ClassHierarchyResolver.java:33-38 | each loaded declared interface is found with its record, together with all of its own interfaces |
| Hierarchy.NotOwnInterface | src/main/java/com/poolik/classfinder/ClassHierarchyResolver.java:29-41 | a loaded type is never among its own interfaces |
| Hierarchy.SingleParentKeys | src/main/java/com/poolik/classfinder/ClassHierarchyResolver.java:29-41 | a class whose only parent is a loaded root interface finds that interface alone |
| Hierarchy.DiamondKeys | src/main/java/com/poolik/classfinder/ClassHierarchyResolver.java:29-41 | when I and J both extend K, a class implementing I and J finds exactly I, J and K |
| Hierarchy.CountSuperClasses | src/main/java/com/poolik/classfinder/ClassFinder.java:335-350 | the caller's map receives exactly the superclasses the resolver finds, and the count is their number |
| Hierarchy.CountInterfaces | src/main/java/com/poolik/classfinder/ClassFinder.java:364-388 | the caller's map gains exactly the interfaces the resolver finds, and the count is at least the number of names added |
| Hierarchy.CountSuperInterfaces | src/main/java/com/poolik/classfinder/ClassFinder.java:367-373 | the superclass part adds exactly the superclass's interfaces and counts at least as many |
| Hierarchy.CountDeclared | src/main/java/com/poolik/classfinder/ClassFinder.java:375-385 | the loop over declared names adds exactly what the resolver's loop adds, and counts at least as many |
| Hierarchy.RootCounts | src/main/java/com/poolik/classfinder/ClassFinder.java:364-388 | a class with no parents finds and counts nothing |
| Hierarchy.SingleParentCounts | src/main/java/com/poolik/classfinder/ClassFinder.java:364-388 | one loaded root interface as the only parent is counted once |
| Hierarchy.DiamondCounts | src/main/java/com/poolik/classfinder/ClassFinder.java:364-388 | on a diamond the counting walk counts four |
| Hierarchy.DiamondCountedTwice | src/main/java/com/poolik/classfinder/ClassFinder.java:362-388 | on the concrete diamond, three interfaces are found but four are counted |
| Hierarchy.CountInterfacesFound | src/main/java/com/poolik/classfinder/ClassFinder.java:352-388 | the corrected count leaves the same map as the counting walk; from an empty map it is the number of interfaces found, never more than the walk's count |
| Hierarchy.DiamondCountedOnce | src/main/java/com/poolik/classfinder/ClassFinder.java:362 | on the concrete diamond the corrected count is three |
| Filters.OrAccept | src/main/java/com/poolik/classfinder/filter/Or.java:113-124 | the answer is the disjunction (true for no filters); no filter after the first accepting one is asked; all are asked when none accepts |
| Filters.AddFilter | src/main/java/com/poolik/classfinder/filter/Or.java:89-92 | appends the filter at the end of the same `Or` object and keeps the others in order |
| Filters.NewOrKeepsOrder | src/main/java/com/poolik/classfinder/filter/Or.java:80-87 | the constructor and `anyOf` give a fresh `Or` holding the given filters in argument order |
| Filters.RemoveFilter | src/main/java/com/poolik/classfinder/filter/Or.java:94-97 | removal compares by object identity: when no filter in the list is the same object, nothing changes; otherwise the list shortens by one |
| Filters.RemoveFilterFirstOccurrence | src/main/java/com/poolik/classfinder/filter/Or.java:94-97 | exactly the first occurrence of the same object is removed; the filters before and after it stay in order |
| Filters.RemoveFilterMultiset | src/main/java/com/poolik/classfinder/filter/Or.java:94-97 | removal takes one reference to the object out of the multiset of references held |
| Filters.RemoveLookalikeKeeps | src/main/java/com/poolik/classfinder/filter/Or.java:94-97 | removing a second `with(a)` object from an `Or` holding a first one leaves the `Or` unchanged |
| Filters.AddThenRemove | src/main/java/com/poolik/classfinder/filter/Or.java:89-97 | removing a newly added filter restores the original |
| Filters.OrWithAddedFilter | src/main/java/com/poolik/classfinder/filter/Or.java:89-124 | after adding f, the `Or` accepts exactly when f accepts or a previously non-empty `Or` accepted |
| Filters.With | src/main/java/com/poolik/classfinder/filter/Annotated.java:10-16 | `with(a)` is a new `Annotated` object for a's name |
| Filters.AnnotatedAcceptsByName | src/main/java/com/poolik/classfinder/filter/Annotated.java:18-24 | accepts exactly when some annotation of the record has the configured name; a record without annotations is rejected |
| Filters.AnnotatedSeesOnlyNames | src/main/java/com/poolik/classfinder/filter/Annotated.java:18-24 | the answer depends only on the record's annotation names, not on visibility, the resolver or the other leaves |
| Filters.VisitedAnnotationAccepted | src/main/java/com/poolik/classfinder/filter/Annotated.java:18-24 | a record that has visited an annotation descriptor is accepted by `Annotated` for the name the code derives from that descriptor |
| Filters.VisitedPlainAnnotationAccepted | src/main/java/com/poolik/classfinder/filter/Annotated.java:10-24 | when the internal name s has no 'L' or ';', `with` of s translated accepts a record that visited "L" + s + ";" |
| Filters.VisitedLogRejected | src/main/java/com/poolik/classfinder/filter/Annotated.java:10-24 | a record whose only annotation is `p.Log` is rejected by `with("p.Log")`, because the stored name lost its 'L' |
| Registries.Put | src/main/java/com/poolik/classfinder/ClassFinder.java:144 | a write stores the record under its class name; a new name goes last in the order, an existing name keeps its place |
| Registries.ValuesAfterPutNew | src/main/java/com/poolik/classfinder/ClassFinder.java:144 | writing a new name appends its record to the values |
| Registries.ValuesAfterPutPresent | src/main/java/com/poolik/classfinder/ClassFinder.java:144 | rewriting a name replaces its value in place |
| Registries.PutAllLastWriteWins | src/main/java/com/poolik/classfinder/ParallelClassLoader.java:24-30 | after a run of writes a name is present exactly when it was before or was written, and holds the last record written under it |
| Registries.PutAllAppend | src/main/java/com/poolik/classfinder/ParallelClassLoader.java:24-30 | writing two runs in turn equals writing their concatenation |
| Registries.PutAllKeepsOrder | src/main/java/com/poolik/classfinder/ParallelClassLoader.java:24-30 | writes never reorder the names already present |
| Registries.PutAllKeyedByName | src/main/java/com/poolik/classfinder/ParallelClassLoader.java:24-30 | every record stays keyed by its own class name |
| SuffixVisitor.NewVisitor | src/main/java/com/poolik/classfinder/io/visitor/SuffixFileVisitor.java:14-18 | a new visitor has the given suffix and no files |
| SuffixVisitor.VisitFile | src/main/java/com/poolik/classfinder/io/visitor/SuffixFileVisitor.java:24-28 | always answers CONTINUE; appends the file exactly when its file name ends with the suffix; otherwise nothing changes |
| SuffixVisitor.CollectedExactly | src/main/java/com/poolik/classfinder/io/visitor/SuffixFileVisitor.java:14-28 | after a walk, a path is collected exactly when it was visited and its file name ends with the suffix |
| SuffixVisitor.Walk | src/main/java/com/poolik/classfinder/io/visitor/SuffixFileVisitor.java:20-28 | visiting paths in order collects the matching ones, in visit order |
| Paths.JarIsNotZip | src/main/java/com/poolik/classfinder/ClassFinder.java:575-581 | no name is both a jar and a zip |
| Paths.JarSuffixIsJar | src/main/java/com/poolik/classfinder/ClassFinder.java:575-577 | a name ending in ".jar" as written is a jar |
| Paths.ZipSuffixIsZip | src/main/java/com/poolik/classfinder/ClassFinder.java:579-581 | a name ending in ".zip" as written is a zip and not a jar |
| Paths.Parent | src/main/java/com/poolik/classfinder/resourceLoader/JarClassPathentriesLoader.java:58-64 | the parent is everything before the last separator, or "/" when that separator is the first character; there is none exactly when the path has no separator or is the root |
| Paths.Join | src/main/java/com/poolik/classfinder/resourceLoader/JarClassPathentriesLoader.java:58-64 | parent, separator and element when there is a parent, the element alone otherwise |
| Manifests.ClassPathEntry | src/main/java/com/poolik/classfinder/resourceLoader/JarClassPathentriesLoader.java:66-74 | none exactly when no main attribute is keyed exactly "Class-Path"; otherwise the value of the first such attribute |
| Manifests.LoadAdditional | src/main/java/com/poolik/classfinder/resourceLoader/JarClassPathentriesLoader.java:23-50 | an unreadable jar, a jar without a manifest, and a manifest without "Class-Path" add nothing; otherwise one path per token |
| Manifests.ExpansionPaths | src/main/java/com/poolik/classfinder/resourceLoader/JarClassPathentriesLoader.java:40-48 | the i-th added path is the jar's parent joined with the i-th token |
| Manifests.ExpansionOfEntries | src/main/java/com/poolik/classfinder/resourceLoader/JarClassPathentriesLoader.java:38-48 | a "Class-Path" listing entries adds each entry, joined to the jar's parent, in order |
| Manifests.BufferAfter | src/main/java/com/poolik/classfinder/ClassFinder.java:531-551 | after the token loop the buffer holds the last token joined to the parent, or stays as it was when there are no tokens |
| Manifests.AsWrittenOver | src/main/java/com/poolik/classfinder/ClassFinder.java:531-557 | at most one path per main attribute |
| Manifests.AsWrittenKeepsOnlyLastEntry | src/main/java/com/poolik/classfinder/ClassFinder.java:531-556 | with two entries the finder adds only the second, where the loader adds both |
| Manifests.AsWrittenAddsEmptyPath | src/main/java/com/poolik/classfinder/ClassFinder.java:531-556 | an empty "Class-Path" makes the finder add the empty path, where the loader adds nothing |
| Manifests.AsWrittenAgreesOnOneEntry | src/main/java/com/poolik/classfinder/ClassFinder.java:531-556 | on a single entry both expansions add the same one path |
| Loading.LoadClassData | src/main/java/com/poolik/classfinder/ParallelClassLoader.java:166-174 | succeeds exactly when the reader does, with its record; every failure carries the fixed message |
| Loading.ReadEachMember | src/main/java/com/poolik/classfinder/ParallelClassLoader.java:93-101 | a record is written exactly when some readable content is read into it; failures are skipped |
| Loading.ClassEntryContentsMember | src/main/java/com/poolik/classfinder/ParallelClassLoader.java:91-92 | only entries that are not directories and whose lower-cased name ends in ".class" are read |
| Loading.ProcessOpenZip | src/main/java/com/poolik/classfinder/ParallelClassLoader.java:83-104 | the entry loop writes exactly the records read from the class entries, in enumeration order |
| Loading.OneEntry | src/main/java/com/poolik/classfinder/ParallelClassLoader.java:87-103 | one more entry adds its record exactly when it is a class entry that opens and reads |
| Loading.ArchiveWrites | src/main/java/com/poolik/classfinder/ParallelClassLoader.java:44-81 | an archive that does not open writes nothing |
| Loading.ArchiveWritesMember | src/main/java/com/poolik/classfinder/ParallelClassLoader.java:44-104 | a record comes from an archive exactly when the archive opens and one of its class entries reads into it |
| Loading.FileContents | src/main/java/com/poolik/classfinder/ParallelClassLoader.java:134-154 | each class file contributes its bytes, or a failure when it does not open |
| Loading.DirectoryOrder | src/main/java/com/poolik/classfinder/ParallelClassLoader.java:106-126 | a directory writes its class files, then its nested jars, then its nested zips, each nested archive handled as a root |
| Loading.ArchiveRoot | src/main/java/com/poolik/classfinder/ParallelClassLoader.java:32-42 | a jar or zip root is read as an archive and never walked as a directory |
| Loading.CollectedJars | src/main/java/com/poolik/classfinder/ParallelClassLoader.java:113-126 | every nested file collected for ".jar" is a jar for the dispatch |
| Loading.CollectedZips | src/main/java/com/poolik/classfinder/ParallelClassLoader.java:113-126 | every nested file collected for ".zip" is a zip for the dispatch |
| Loading.RootsWritesAppend | src/main/java/com/poolik/classfinder/ParallelClassLoader.java:24-30 | the roots write one after another, in collection order |
| Loading.LoadedIsLastRead | src/main/java/com/poolik/classfinder/ParallelClassLoader.java:24-30 | a name is loaded exactly when some record with that name was read, and it holds the last one read |
| Loading.LoadedKeyedByName | src/main/java/com/poolik/classfinder/ParallelClassLoader.java:24-30 | each loaded record sits under its own class name |
| Loading.LoadRootsInOrder | src/main/java/com/poolik/classfinder/ParallelClassLoader.java:24-30 | loading a + b equals loading a and then writing what b reads |
| Finder.Add | src/main/java/com/poolik/classfinder/ClassFinder.java:176-194 | true exactly when the file can hold classes; nothing changes when it cannot or is already present; a new path is placed right after the existing ones; only a jar brings further paths, and every path of its `loadJarClassPathEntries` expansion (one per `Class-Path` key) that can hold classes is then a place to search; paths stay distinct and the old ones keep their order |
| Finder.AddEach | src/main/java/com/poolik/classfinder/ClassFinder.java:206-236 | the count is the number of files that can hold classes, and each of those files is afterwards a place to search; places only grow, stay distinct and come from what can hold classes |
| Finder.AddAll | src/main/java/com/poolik/classfinder/ClassFinder.java:206-236 | the count is the number of files that can hold classes, re-adds included, and each of those files is afterwards a place to search |
| Finder.AddTwice | src/main/java/com/poolik/classfinder/ClassFinder.java:176-194 | adding the same file again changes nothing and answers the same |
| Finder.ReAddCounts | src/main/java/com/poolik/classfinder/ClassFinder.java:206-236 | re-adding files already present changes nothing and counts each of them |
| Finder.Clear | src/main/java/com/poolik/classfinder/ClassFinder.java:241-244 | no places and no loaded classes remain; the error flag stays |
| Finder.SetErrorIfResultEmpty | src/main/java/com/poolik/classfinder/ClassFinder.java:246-248 | sets the flag and touches nothing else |
| Finder.SelectMember | src/main/java/com/poolik/classfinder/ClassFinder.java:289-303 | a record is selected exactly when it is loaded and passes the filter |
| Finder.SelectAll | src/main/java/com/poolik/classfinder/ClassFinder.java:289-303 | a null filter selects every loaded record, in order |
| Finder.FilterClasses | src/main/java/com/poolik/classfinder/ClassFinder.java:289-303 | keeps exactly the accepted records, in iteration order, and counts them |
| Finder.FindClasses | src/main/java/com/poolik/classfinder/ClassFinder.java:267-287 | the places and the flag are untouched; a success leaves the map empty; a failure carries "Didn't find any classes" |
| Finder.FindAllClasses | src/main/java/com/poolik/classfinder/ClassFinder.java:256-258 | without a filter the answer is every loaded record, in order |
| Finder.FindFailsExactly | src/main/java/com/poolik/classfinder/ClassFinder.java:277-282 | the search fails exactly when the flag is set and no loaded record passes; otherwise it answers exactly the loaded records that pass |
| Finder.NothingPersists | src/main/java/com/poolik/classfinder/ClassFinder.java:267-287 | the outcome does not depend on what a previous search left, so repeating a search repeats its outcome |
| Finder.ClearThenFind | src/test/java/com/poolik/classfinder/ClassFinderTest.java:59-67 | after `clear`, a search answers nothing, or fails when the flag is set |
| Finder.EmptyFinderFails | src/test/java/com/poolik/classfinder/ClassFinderTest.java:103-109 | a fresh finder told to fail on an empty result fails |

## Left out

- I/O is parameters, not code. This covers the file system, jar and zip archives, manifests and the ASM class reader. `ClassInfoClassVisitor` and the `ClassReader` are one function from bytes and location to an optional record. The model assumes that such a record is stored under its class name, and only once reading has succeeded.
- `ClassUtil.fileCanContainClasses`, `RecursiveFileFinder`, `RegexFileFilter` and `FileOnlyFilter` are not part of this model.
  - `fileCanContainClasses` is membership of the absolute path in `Env.containers`. Keying by absolute path treats `new File("")` as the working directory, whose absolute path it has. `File`'s own existence and directory tests answer false for the empty path, so what the real test answers for it is not modelled.
  - The recursive finder's answer is `FileSystem.found`: the regular files below a directory, in its order.
  - The regular expression "\\.suffix$" on the file name is a case-sensitive suffix test.
- `FileUtil.isJar` and `FileUtil.isZip` are not part of this model. They are taken to be `ClassFinder.isJar`/`isZip`, a lower-cased suffix test. Lower-casing covers ASCII letters only.
- `java.io.File` path normalisation is not modelled. Paths are taken as written, with '/' as the separator.
- Hash codes: `String.hashCode` is modelled, but characters outside the Basic Multilingual Plane are not split into two code units.
- Java `int` overflow of the counts of `add(File[])`, `findAllSuperClasses` and `findAllInterfaces` is not modelled; counts are unbounded.
- `addClassPath` is left out. It reads a system property.
- Logging, resource closing and concurrency are left out. `ParallelClassLoader` is sequential.
- The opaque `value` of `FieldInfo` is left out. It takes no part in `equals`, `hashCode` or `toString`.
- The `null` returned by the three visit methods is left out.
- A null interface array counts as empty in both hierarchy walks. The resolver would throw, and the counting `findAllInterfaces` tests the map argument rather than the array at line 376.
- `ClassFinder` keeps its own copy of the loading code. That copy writes into its `LinkedHashMap`, so the model has one loading function (`Loading.LoadRegistry`) with insertion order. `ParallelClassLoader` returns a `HashMap`: `Loading.LoadClassesFrom` is its key-to-record map, and its iteration order is not modelled.
- `ClassFinder.findAllSuperClasses`/`findAllInterfaces` read the finder's own map of loaded classes. That map is empty except during a search, so the model takes the map as a parameter.
- Manifest attributes are a sequence of (key, value) pairs. Java's case-insensitive attribute names are not modelled, so the sequence may hold several "Class-Path" keys.
- Hierarchy.CountInterfaces: the count is bounded below by the number of interfaces added, not given exactly. The exact count depends on how many paths reach each interface. The diamond lemmas pin it down on concrete shapes.
- Hierarchy.CountSuperInterfaces: likewise, the count of the superclass part is only bounded below by the number of interfaces it adds.
- Hierarchy.CountDeclared: likewise, the count of the loop over declared names is only bounded below by the number of interfaces it adds.
- The other filters (interface, subclass, regex, abstract, `And`, `Not`) are leaves whose answer is an uninterpreted function of the record and the loaded map.
- Filters.AddFilter: an `Or` is a value. `addFilter` and `removeFilter` mutate the `Or` object and return it, so whoever else holds that object (another `Or`, say) sees the change. That aliasing is not modelled: each operation returns the updated `Or`, and object identity is kept only as the `ref` that removal compares.
- Finder.Add: the finder's places are bounded by the finite set `Env.containers`. The source puts no such bound on them, but every place it adds also passes `fileCanContainClasses`, so nothing is lost.

## Findings

| source | as written | input that shows it | evidently intended | confidence | as-written member | corrected member |
|---|---|---|---|---|---|---|
| src/main/java/com/poolik/classfinder/info/AnnotationInfo.java:13-15 | `replace("L", "")` removes every 'L' of the descriptor | "Lp/Log;" gives `p.og` | strip only the leading 'L' and trailing ';' | high, not executed | Annotations.LDroppedFromName | Annotations.NameDescriptorRoundTrip |
| src/main/java/com/poolik/classfinder/ClassFinder.java:531-556 | the buffer is reset per token, but `add` is called once, after the loop | "Class-Path: a.jar b.jar" adds only `b.jar` | one `add` per entry, as `JarClassPathentriesLoader` does | high, not executed | Manifests.AsWrittenKeepsOnlyLastEntry | Manifests.ExpansionOfEntries |
| src/main/java/com/poolik/classfinder/ClassFinder.java:531-556 | `add` runs even when the value has no tokens | "Class-Path: " calls `add` with the empty path | add nothing | high, not executed | Manifests.AsWrittenAddsEmptyPath | Manifests.LoadAdditional |
| src/main/java/com/poolik/classfinder/info/MethodInfo.java:83-86 | `signature.hashCode()` without a null check | a method with no generic signature throws `NullPointerException` on insertion into the method set | a null-safe hash consistent with `equals` | medium, not executed: ClassInfoTest.java:47-55 expects plain methods in the set, so the failure depends on the class-file visitor, which is not part of this model, passing a null signature | Methods.HashFailsWithoutSignature | Methods.MethodHashConsistent |
| src/main/java/com/poolik/classfinder/ClassFinder.java:352-388 | one count per `put`, so an interface reached along two paths counts twice | C implements I and J, both extending K: three interfaces, count four | "the number of interfaces found" | medium, not executed | Hierarchy.DiamondCountedTwice | Hierarchy.DiamondCountedOnce |
