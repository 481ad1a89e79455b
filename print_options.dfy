/**
 * `PrintOptions`: the immutable report options, and the `Builder` whose setters
 * assign one option each and return the builder itself, so that calls chain.
 */
module PrintOptionsModel {
  import opened JavaLang
  import opened OutputFormats

  /** The thirteen options; the getters are the field accessors. */
  datatype PrintOptions = PrintOptions(
    includeClasses: bool,
    includeClassCount: bool,
    includeMethodCount: bool,
    includeFieldCount: bool,
    includeTotalMethodCount: bool,
    printHeader: bool,
    orderByMethodCount: bool,
    maxTreeDepth: int32,
    maxMethodCount: int32,
    printDeclarations: bool,
    androidProject: bool,
    verbose: bool,
    outputFormat: OutputFormat)

  /** The options `builder()` starts from: method counts on, no depth limit
      (`Int.MAX_VALUE`), no method-count limit (-1), an Android project, LIST. */
  const BUILDER_DEFAULTS: PrintOptions := PrintOptions(false, false, true, false, false, false, false,
                                                       INT_MAX, -1, false, true, false, LIST)

  /** The options of a bare `Builder()`: limits 0, an Android project, LIST,
      every other flag off. */
  const BARE_DEFAULTS: PrintOptions := PrintOptions(false, false, false, false, false, false, false,
                                                    0, 0, false, true, false, LIST)

  /** Each setter stores its argument in its own option, leaves the other twelve
      as they were and returns the builder itself. */
  class Builder {
    var includeClasses: bool
    var includeClassCount: bool
    var includeMethodCount: bool
    var includeFieldCount: bool
    var includeTotalMethodCount: bool
    var printHeader: bool
    var orderByMethodCount: bool
    var maxTreeDepth: int32
    var maxMethodCount: int32
    var printDeclarations: bool
    var androidProject: bool
    var verbose: bool
    var outputFormat: OutputFormat

    /** `Builder()`: the field initialisers. */
    constructor ()
      ensures Build() == BARE_DEFAULTS
    {
      includeClasses := false;
      includeClassCount := false;
      includeMethodCount := false;
      includeFieldCount := false;
      includeTotalMethodCount := false;
      printHeader := false;
      orderByMethodCount := false;
      maxTreeDepth := 0;
      maxMethodCount := 0;
      printDeclarations := false;
      androidProject := true;
      verbose := false;
      outputFormat := LIST;
    }

    /** `build()`: a copy of the current values; the result is a value, so later
        setter calls cannot change it. */
    function Build(): PrintOptions
      reads this
    {
      PrintOptions(includeClasses, includeClassCount, includeMethodCount, includeFieldCount, includeTotalMethodCount, printHeader, orderByMethodCount, maxTreeDepth, maxMethodCount, printDeclarations, androidProject, verbose, outputFormat)
    }

    method SetIncludeClasses(v: bool) returns (b: Builder)
      modifies this
      ensures b == this && Build() == old(Build()).(includeClasses := v)
    {
      includeClasses := v;
      return this;
    }

    method SetIncludeClassCount(v: bool) returns (b: Builder)
      modifies this
      ensures b == this && Build() == old(Build()).(includeClassCount := v)
    {
      includeClassCount := v;
      return this;
    }

    method SetIncludeMethodCount(v: bool) returns (b: Builder)
      modifies this
      ensures b == this && Build() == old(Build()).(includeMethodCount := v)
    {
      includeMethodCount := v;
      return this;
    }

    method SetIncludeFieldCount(v: bool) returns (b: Builder)
      modifies this
      ensures b == this && Build() == old(Build()).(includeFieldCount := v)
    {
      includeFieldCount := v;
      return this;
    }

    method SetIncludeTotalMethodCount(v: bool) returns (b: Builder)
      modifies this
      ensures b == this && Build() == old(Build()).(includeTotalMethodCount := v)
    {
      includeTotalMethodCount := v;
      return this;
    }

    method SetPrintHeader(v: bool) returns (b: Builder)
      modifies this
      ensures b == this && Build() == old(Build()).(printHeader := v)
    {
      printHeader := v;
      return this;
    }

    method SetOrderByMethodCount(v: bool) returns (b: Builder)
      modifies this
      ensures b == this && Build() == old(Build()).(orderByMethodCount := v)
    {
      orderByMethodCount := v;
      return this;
    }

    method SetMaxTreeDepth(v: int32) returns (b: Builder)
      modifies this
      ensures b == this && Build() == old(Build()).(maxTreeDepth := v)
    {
      maxTreeDepth := v;
      return this;
    }

    method SetMaxMethodCount(v: int32) returns (b: Builder)
      modifies this
      ensures b == this && Build() == old(Build()).(maxMethodCount := v)
    {
      maxMethodCount := v;
      return this;
    }

    method SetPrintDeclarations(v: bool) returns (b: Builder)
      modifies this
      ensures b == this && Build() == old(Build()).(printDeclarations := v)
    {
      printDeclarations := v;
      return this;
    }

    method SetAndroidProject(v: bool) returns (b: Builder)
      modifies this
      ensures b == this && Build() == old(Build()).(androidProject := v)
    {
      androidProject := v;
      return this;
    }

    method SetVerbose(v: bool) returns (b: Builder)
      modifies this
      ensures b == this && Build() == old(Build()).(verbose := v)
    {
      verbose := v;
      return this;
    }

    method SetOutputFormat(v: OutputFormat) returns (b: Builder)
      modifies this
      ensures b == this && Build() == old(Build()).(outputFormat := v)
    {
      outputFormat := v;
      return this;
    }
  }

  /** `toBuilder()`: a new bare builder with every option set from `o`, in the
      order of the source's setter chain. */
  method ToBuilder(o: PrintOptions) returns (b: Builder)
    ensures fresh(b) && b.Build() == o
  {
    b := new Builder();
    SetCountFlags(b, o);
    SetHeaderAndLimits(b, o);
    SetRemaining(b, o);
  }

  /** The first four setter calls of `toBuilder`. */
  method SetCountFlags(b: Builder, o: PrintOptions)
    modifies b
    ensures b.Build() == old(b.Build()).(includeClasses := o.includeClasses, includeClassCount := o.includeClassCount, includeMethodCount := o.includeMethodCount, includeFieldCount := o.includeFieldCount)
  {
    var _ := b.SetIncludeClasses(o.includeClasses);
    var _ := b.SetIncludeClassCount(o.includeClassCount);
    var _ := b.SetIncludeMethodCount(o.includeMethodCount);
    var _ := b.SetIncludeFieldCount(o.includeFieldCount);
  }

  /** The next four. */
  method SetHeaderAndLimits(b: Builder, o: PrintOptions)
    modifies b
    ensures b.Build() == old(b.Build()).(includeTotalMethodCount := o.includeTotalMethodCount, printHeader := o.printHeader, orderByMethodCount := o.orderByMethodCount, maxTreeDepth := o.maxTreeDepth)
  {
    var _ := b.SetIncludeTotalMethodCount(o.includeTotalMethodCount);
    var _ := b.SetPrintHeader(o.printHeader);
    var _ := b.SetOrderByMethodCount(o.orderByMethodCount);
    var _ := b.SetMaxTreeDepth(o.maxTreeDepth);
  }

  /** The last five. */
  method SetRemaining(b: Builder, o: PrintOptions)
    modifies b
    ensures b.Build() == old(b.Build()).(maxMethodCount := o.maxMethodCount, printDeclarations := o.printDeclarations, androidProject := o.androidProject, verbose := o.verbose, outputFormat := o.outputFormat)
  {
    var _ := b.SetMaxMethodCount(o.maxMethodCount);
    var _ := b.SetPrintDeclarations(o.printDeclarations);
    var _ := b.SetAndroidProject(o.androidProject);
    var _ := b.SetVerbose(o.verbose);
    var _ := b.SetOutputFormat(o.outputFormat);
  }


  /** `builder()`: a bare builder with the thirteen documented defaults set. */
  method DefaultBuilder() returns (b: Builder)
    ensures fresh(b) && b.Build() == BUILDER_DEFAULTS
  {
    b := new Builder();
    var _ := b.SetIncludeClasses(false);
    var _ := b.SetIncludeClassCount(false);
    var _ := b.SetIncludeMethodCount(true);
    var _ := b.SetIncludeFieldCount(false);
    var _ := b.SetIncludeTotalMethodCount(false);
    var _ := b.SetPrintHeader(false);
    var _ := b.SetOrderByMethodCount(false);
    var _ := b.SetMaxTreeDepth(INT_MAX);
    var _ := b.SetMaxMethodCount(-1);
    var _ := b.SetPrintDeclarations(false);
    var _ := b.SetAndroidProject(true);
    var _ := b.SetVerbose(false);
    var _ := b.SetOutputFormat(LIST);
  }

  /** A built value does not follow the builder: setting an option afterwards
      changes a second build and leaves the first as it was. */
  method BuildIsSnapshot(b: Builder, v: bool) returns (before: PrintOptions, after: PrintOptions)
    modifies b
    ensures before == old(b.Build()) && after == before.(verbose := v)
  {
    before := b.Build();
    var _ := b.SetVerbose(v);
    after := b.Build();
  }
}
