# coloranalyzer, modelled in Dafny

coloranalyzer is a PHP library. It reads colour strings (hex, `rgb()`/`rgba()` and `hsl()`/`hsla()`) into colour objects. It builds every foreground/background pairing of a palette, blending translucent colours with alpha compositing. It rates each pairing against the WCAG 2 contrast levels. This project models the core of the library and proves properties of the model:

- **Colours and pairs.** A `Colors.Color` is a datatype with two cases. `Plain` is a colour. `Blended` is the result of a blend, which remembers the two colours it came from. The channels are unbounded integers and the alpha is kept in hundredths, because the constructor rounds it to two decimals. `ColorContexts.ColorContext` is a foreground over a background.
- **Processors.** `HexCodec`, `RgbCodec` and `HslCodec` hold `buildColor()` and `formatColor()` of the three processors. The CSS call parser they share is in `CssFunctions`.
- **PHP's own semantics.** The PHP functions the processors rely on are written out in `PhpStrings`, `PhpNumbers` and `PhpArrays`:
  - `round` (half away from zero), `strpos`, `substr`, `explode`, `implode`, `strtolower`/`strtoupper`;
  - the rendering of integers and two-decimal floats as strings;
  - string-keyed arrays, which keep their keys in insertion order.
- **Blending.** `Blending` holds the alpha-composite blender.
- **The factory.** `Factories.ColorFactory` is a class. Its processor list and its blend strategy are fields that its methods update. A processor or blender is a value that wraps the function it computes.
- **The palette.** `Palettes.ColorPalette` is a class with the fields of the PHP class. Its constructor runs `buildColors()` and `pairColorArray()` as methods with loops, and those loops are proved against the specification functions `Collect` and `PairTable`. The Iterator methods are members of the class. `getInvalidStrings()` is `InvalidStrings()`, and the constructor's contract fixes its contents.
- **WCAG.** `Wcag` holds the WCAG 2 compliance column. The contrast ratio is a parameter there.

The HSL processor works by loops and in-place assignments: the loop that reduces the hue modifier, the if-chain that assigns the sector's channels, and the loops that normalise the hue before formatting. These are methods (`ReduceHueModifier`, `FillSector`, `BuildColorFromHsl`, `FormatHslColor`), each proved equal to a recursive or explicit function. Properties are then proved about those functions.

## Model

| member | source | states |
|---|---|---|
| PhpNumbers.Round | src/Color.php:46-48 | The rounded integer is within 1/2 of the input; a tie goes away from zero |
| PhpNumbers.RoundInt | src/Color.php:46-48 | An integer rounds to itself |
| PhpNumbers.RoundMonotone | src/Color.php:46-48 | Rounding never reverses the order of two numbers |
| PhpNumbers.RoundCents | src/Color.php:49 | round(x, 2), in hundredths, is within half a hundredth of 100·x |
| PhpNumbers.Round2 | src/Processors/HslProcessor.php:111-121 | round(x, 2) is within 0.005 of x |
| PhpNumbers.IntToString | src/Color.php:174-179 | An integer prints as a non-empty numeral without a plus sign |
| PhpNumbers.CentsToString | src/Color.php:178 | A two-decimal alpha prints as a non-empty numeral without a plus sign |
| PhpNumbers.NatToStringValue | src/Color.php:174-179 | The digits printed for n denote n |
| PhpNumbers.IntToStringInjective | src/Color.php:174-179 | Two integers that print alike are equal |
| PhpNumbers.CentsToStringInjective | src/Color.php:178 | Two two-decimal values that print alike are equal |
| PhpNumbers.CentsExamples | src/Color.php:178 | 0.75, 0.5, -0.05 and 2 print as PHP prints them; trailing zeros and a whole ".00" are dropped |
| PhpNumbers.CentsOfWhole | src/Color.php:178 | A whole alpha prints like the integer |
| PhpNumbers.ParseIntToString | src/Processors/RgbProcessor.php:21-53 | An integer printed and read back as a number argument is the same integer |
| PhpNumbers.ParseCentsToString | src/Processors/RgbProcessor.php:27 | A two-decimal value printed and read back is the same value |
| PhpNumbers.ParseNumeralSpace | src/Processors/AbstractCssFunctionProcessor.php:43 | A leading space, which the parser leaves on an argument, does not change the number it reads as |
| PhpNumbers.TrimNumeral | src/Processors/AbstractCssFunctionProcessor.php:43 | Trimming a printed numeral changes nothing |
| PhpNumbers.ParseNumeral | src/Processors/RgbProcessor.php:49-53 | A number is read only from a non-empty string, and a string of plain digits reads as their decimal value |
| PhpNumbers.ExponentNotRead | src/Processors/RgbProcessor.php:49-53 | An exponent form such as "1e2" is not read as a number |
| PhpStrings.IndexOf | src/Processors/AbstractCssFunctionProcessor.php:32 | strpos: the first occurrence; the whole length exactly when the character is absent |
| PhpStrings.IndexOfAppend | src/Processors/AbstractCssFunctionProcessor.php:40 | The first occurrence in a + b, when a lacks the character, is in b |
| PhpStrings.Split | src/Processors/AbstractCssFunctionProcessor.php:42 | explode gives one more part than there are separators, none containing one |
| PhpStrings.SplitCons | src/Processors/AbstractCssFunctionProcessor.php:42 | explode takes the text before the first separator as the first part |
| PhpStrings.SplitJoin | src/Processors/AbstractCssFunctionProcessor.php:42-57 | explode(',') of implode(', ') gives the parts back, each after the first prefixed by a space |
| PhpStrings.SplitJoinComma | src/Processors/AbstractCssFunctionProcessor.php:42 | explode(',') of implode(',') gives the parts back exactly |
| PhpStrings.ToLower | src/Processors/AbstractCssFunctionProcessor.php:37 | strtolower keeps the length and lowers each character |
| PhpStrings.ToUpper | src/Processors/HexProcessor.php:34 | strtoupper keeps the length and raises each character |
| PhpStrings.ToUpperAppend | src/Processors/HexProcessor.php:34 | strtoupper of a concatenation is the concatenation of the parts raised |
| PhpStrings.PadTail | src/Processors/AbstractCssFunctionProcessor.php:57 | The first part as it is, every later part after the pad |
| PhpStrings.Join | src/Processors/AbstractCssFunctionProcessor.php:57 | implode of no parts is empty, of one part is that part, and otherwise as long as the parts with one separator between each two |
| Colors.NewColor | src/Color.php:45-50 | The constructor rounds each channel to within 1/2 and the alpha to within 0.005 of what is given |
| Colors.NewColorKeepsIntegers | src/Color.php:45-50 | Integer channels and an alpha in whole hundredths are stored unchanged |
| Colors.DefaultAlphaIsOne | src/Color.php:45 | Without an alpha, a colour or blended colour is opaque |
| Colors.NewBlendedColor | src/BlendedColor.php:38-50 | A blended colour remembers both originals and equals the plain colour of the same values |
| Colors.BlendedLikePlain | src/BlendedColor.php:38-42 | A blended colour compares and prints exactly as the plain colour of the same values |
| Colors.Brightness | src/Color.php:86-92 | Brightness lies in [0, 255] for a colour in range, and is the channel value for a grey |
| Colors.Difference | src/Color.php:136-140 | The channel difference is non-negative and zero exactly when the channels agree |
| Colors.DifferenceSymmetric | src/Color.php:136-140 | The channel difference does not depend on the order of the two colours |
| Colors.DiffBrightness | src/Color.php:170-172 | The brightness difference is non-negative and zero for colours with equal channels |
| Colors.DiffBrightnessSymmetric | src/Color.php:170-172 | The brightness difference does not depend on the order |
| Colors.EqualsReflexive | src/Color.php:186-192 | Every colour equals itself |
| Colors.EqualsSymmetric | src/Color.php:186-192 | equals() does not depend on the order |
| Colors.ToStringInjective | src/Color.php:174-192 | Two colours print alike exactly when equals() holds, so the string is a faithful key |
| Colors.Equals | src/Color.php:186-192 | Equal colours have channel difference 0 and brightness difference 0 |
| Colors.ToString | src/Color.php:174-179 | A colour's string has no space, so " on " separates the two halves of a pair key |
| ColorContexts.Difference | src/ColorContext.php:54-56 | The pair's channel difference is non-negative and zero exactly when the channels agree |
| ColorContexts.DiffBrightness | src/ColorContext.php:78-80 | The pair's brightness difference is non-negative |
| ColorContexts.MetricsSwapInvariant | src/ColorContext.php:54-80 | Swapping foreground and background keeps both metrics |
| ColorContexts.ToStringInjective | src/ColorContext.php:82-84 | Two pairs have the same key exactly when the foregrounds are equal and so are the backgrounds |
| ColorContexts.SplitKey | src/ColorContext.php:82-84 | Equal pair keys have equal foreground strings and equal background strings |
| ColorContexts.ToString | src/ColorContext.php:82-84 | A pair key has exactly two spaces, the ones around "on" |
| CssFunctions.Substr | src/Processors/AbstractCssFunctionProcessor.php:41 | substr with a negative length counts from the end, and gives "" when that end is before the start |
| CssFunctions.ParseCssColorFunction | src/Processors/AbstractCssFunctionProcessor.php:31-46 | None exactly when there is no "("; otherwise the name is the lower-cased text before the first "(", and the arguments are at least one and contain no comma |
| CssFunctions.ParseCommaCall | src/Processors/AbstractCssFunctionProcessor.php:31-46 | name(a,b,…) parses to the lowered name and exactly the arguments |
| CssFunctions.ParseAfterName | src/Processors/AbstractCssFunctionProcessor.php:32-44 | The name is lowered, and the arguments run up to the first ")" in the whole string, not the last |
| CssFunctions.ParseCaseInsensitive | src/Processors/AbstractCssFunctionProcessor.php:37 | Names differing only in case parse alike |
| CssFunctions.FormatColorFunction | src/Processors/AbstractCssFunctionProcessor.php:56-58 | The text is the name, then "(", then the arguments, closed by ")" |
| CssFunctions.ParseFormat | src/Processors/AbstractCssFunctionProcessor.php:31-58 | Parsing a formatted call gives the lowered name and the arguments, each after the first with the space implode put before it |
| CssFunctions.ParseAll | src/Processors/RgbProcessor.php:49-53 | Reading arguments as numbers gives one number per argument |
| CssFunctions.ParseAllFails | src/Processors/RgbProcessor.php:49-53 | One argument that is not a number makes the whole call unreadable |
| CssFunctions.ParseAllEach | src/Processors/RgbProcessor.php:49-53 | Arguments that read as numbers read as the list of those numbers |
| RgbCodec.BuildColor | src/Processors/RgbProcessor.php:39-66 | A colour only for a call rgb with 3 or rgba with 4 arguments, always a plain colour |
| RgbCodec.BuildFromCall | src/Processors/RgbProcessor.php:44-65 | A colour exactly when the name and count are accepted and every argument reads |
| RgbCodec.FromValues | src/Processors/RgbProcessor.php:44-65 | A colour exactly for rgb/3 and rgba/4 with readable values |
| RgbCodec.RgbColor | src/Processors/RgbProcessor.php:49-53 | rgb(): the three values rounded, opaque |
| RgbCodec.RgbaColor | src/Processors/RgbProcessor.php:58-63 | rgba(): the three values rounded; the alpha is round(a·255), stored without dividing by 255 |
| RgbCodec.RgbChannels | src/Processors/RgbProcessor.php:45-53 | Three readable values give the rounded opaque colour |
| RgbCodec.RgbaAlphaNotScaled | src/Processors/RgbProcessor.php:62 | The rgba alpha is the fourth argument times 255, rounded, not divided back |
| RgbCodec.RgbaAlphaCents | src/Processors/RgbProcessor.php:62 | round(a·255) is whole, so the colour stores 100 times it in hundredths |
| RgbCodec.FormatColor | src/Processors/RgbProcessor.php:21-37 | The text starts "rgb", with an "a" after it exactly when the colour is translucent |
| RgbCodec.RoundStoredAlpha | src/Processors/RgbProcessor.php:27 | Rounding a stored alpha to two decimals changes nothing |
| RgbCodec.SplitFormatted | src/Processors/RgbProcessor.php:21-37 | A formatted colour parses to its own name and its printed channels |
| RgbCodec.ReadFormattedArguments | src/Processors/RgbProcessor.php:21-37 | The printed arguments read back as the channels, and the alpha when translucent |
| RgbCodec.ParseOfFormat | src/Processors/RgbProcessor.php:21-66 | Reading a formatted colour gives its channels; an opaque colour keeps its alpha, a translucent one has it multiplied by 255 |
| RgbCodec.RgbaExample | src/Processors/RgbProcessor.php:27-62 | rgba(r, g, b, 0.75) reads back with alpha 191 |
| RgbCodec.FormatOfParse | src/Processors/RgbProcessor.php:21-37 | rgb(r, g, b) of integers reads as that opaque colour |
| RgbCodec.BuildCaseInsensitive | src/Processors/RgbProcessor.php:40-44 | The function name is matched regardless of case |
| RgbCodec.OtherNamesRejected | src/Processors/RgbProcessor.php:44-65 | A call with another name gives null |
| HexCodec.HexBody | src/Processors/HexProcessor.php:41 | The digits are the string without at most one leading "#" |
| HexCodec.HexDec | src/Processors/HexProcessor.php:86-89 | hexdec of k characters is below 16 to the k |
| HexCodec.NatToHex | src/Processors/HexProcessor.php:28-32 | dechex of a non-negative integer gives hex digits that hexdec reads back as it |
| HexCodec.DecHex | src/Processors/HexProcessor.php:28-32 | dechex gives hex digits; hexdec reads them back as the integer, or for a negative one as its unsigned 64-bit form |
| HexCodec.LTrimHash | src/Processors/HexProcessor.php:41 | ltrim of "#" leaves no leading "#" |
| HexCodec.BuildColorFromHex | src/Processors/HexProcessor.php:84-90 | The channels are the hex values; the alpha is the hex value over 255 in rounded hundredths, "FF" by default |
| HexCodec.FromDigits | src/Processors/HexProcessor.php:42-69 | A colour exactly for 2, 3, 6 or 8 digits |
| HexCodec.BuildColor | src/Processors/HexProcessor.php:37-70 | A colour exactly when the string is an optional "#" and 2 to 8 hex digits, and the digit count is 2, 3, 6 or 8; the colour is plain and in range |
| HexCodec.BuildColorAsWritten | src/Processors/HexProcessor.php:38 | The PCRE match as written, which also admits one trailing newline, agrees with the strict match wherever the strict one holds |
| HexCodec.FormatColor | src/Processors/HexProcessor.php:26-35 | The text starts with "#" and has at least six digits |
| HexCodec.HexDecTwo | src/Processors/HexProcessor.php:86-88 | Two digits are 16 times the first plus the second, below 256 |
| HexCodec.HexDecPair | src/Processors/HexProcessor.php:86-88 | A two-digit field has a value below 256 |
| HexCodec.HexDecUpper | src/Processors/HexProcessor.php:86-88 | hexdec ignores case |
| HexCodec.AlphaCentsRange | src/Processors/HexProcessor.php:89 | An alpha byte gives an alpha between 0 and 1 |
| HexCodec.OpaqueAlpha | src/Processors/HexProcessor.php:84 | The default alpha "FF" is fully opaque |
| HexCodec.FromDigitsInGamut | src/Processors/HexProcessor.php:42-69 | Hex digits always give channels 0..255 and alpha 0..1 |
| HexCodec.OtherLengthsRejected | src/Processors/HexProcessor.php:42-69 | 4, 5 or 7 digits match the pattern yet give null |
| HexCodec.RejectedExamples | tests/HexProcessorTest.php:58-66 | The test suite's invalid strings give null |
| HexCodec.TwoDigitsGrey | src/Processors/HexProcessor.php:43-48 | Two digits are used for all three channels |
| HexCodec.ThreeDigitsDoubled | src/Processors/HexProcessor.php:49-54 | Three digits each doubled give the channels |
| HexCodec.FieldsOfDigits | src/Processors/HexProcessor.php:55-67 | Six or eight digits are read two at a time, the fourth pair as alpha |
| HexCodec.GreyExample | tests/HexProcessorTest.php:43 | "#36" is (54, 54, 54) |
| HexCodec.ThreeDigitExample | tests/HexProcessorTest.php:42 | "#369" is (51, 102, 153) |
| HexCodec.AlphaExample | tests/HexProcessorTest.php:50 | "ff000066" is red at alpha 0.4 |
| HexCodec.HexFieldByte | src/Processors/HexProcessor.php:28-30 | A channel 0..255 is printed as two digits that read back as it |
| HexCodec.HexFieldOfDigits | src/Processors/HexProcessor.php:28-34 | Reading two digits and printing them again gives them back in upper case |
| HexCodec.FormatOfSixDigits | src/Processors/HexProcessor.php:26-70 | Formatting the colour that six digits read as gives "#" and those digits in upper case |
| HexCodec.AlphaByteRoundTrip | src/Processors/HexProcessor.php:31-33 | A translucent alpha written as round(a·255) reads back as the same hundredths |
| HexCodec.ParseOfFormat | src/Processors/HexProcessor.php:26-90 | A colour in range formatted and read back is the same plain colour |
| HexCodec.ReadBack | src/Processors/HexProcessor.php:55-67 | Six or eight digits whose fields are the colour's read back as the colour |
| HexCodec.AsWrittenAcceptsNewline | src/Processors/HexProcessor.php:38 | The pattern as written accepts a valid string with "\n" appended; the strict one does not, and gives null |
| HexCodec.NewlineFinding | src/Processors/HexProcessor.php:38-54 | "ff\n" reads as (255, 255, 0) as written, and as null under the strict pattern |
| HexCodec.BuildColorOnlyHex | src/Processors/HexProcessor.php:38 | Whatever the strict processor accepts is made only of hex digits |
| HslCodec.HueModifier | src/Processors/HslProcessor.php:141-144 | The loop leaves a hue modifier of at most 2 |
| HslCodec.ReduceHueModifier | src/Processors/HslProcessor.php:141-144 | The while loop computes HueModifier, at most 2 |
| HslCodec.HueModifierStandard | src/Processors/HslProcessor.php:141-146 | For a non-negative hue, the reduced modifier is at least 0 and its distance from 1 is that of the hue modulo 2 |
| HslCodec.SecondComponentStandard | src/Processors/HslProcessor.php:146 | For a non-negative hue, the second component equals the textbook C·(1 − abs(H/60 mod 2 − 1)) |
| HslCodec.SectorChannels | src/Processors/HslProcessor.php:148-176 | Each 120-degree third zeroes one channel, and the three are chroma, the second component and 0 in some order |
| HslCodec.FillSector | src/Processors/HslProcessor.php:148-176 | The branches compute SectorChannels |
| HslCodec.ColorFromHsl | src/Processors/HslProcessor.php:140-184 | A plain colour whose alpha is the given alpha to two decimals |
| HslCodec.BuildColorFromHsl | src/Processors/HslProcessor.php:140-184 | The method computes ColorFromHsl |
| HslCodec.ChannelsOf | src/Processors/HslProcessor.php:177-182 | The constructor call on the three shifted and scaled channels is ColorFromHsl |
| HslCodec.NegativeHueNotWrapped | src/Processors/HslProcessor.php:141-176 | A negative hue is not wrapped: hsl(-60, 100%, 50%) has green channel -255 |
| HslCodec.ChromaBounds | src/Processors/HslProcessor.php:145-147 | For saturation and lightness in [0, 1], the chroma and the lightness shift keep the channels in [0, 1] |
| HslCodec.SecondComponentBounds | src/Processors/HslProcessor.php:146 | For a non-negative hue, the second component lies between 0 and the chroma |
| HslCodec.ChannelBounds | src/Processors/HslProcessor.php:178-180 | A channel within the chroma maps into 0..255 |
| HslCodec.ColorFromHslInGamut | src/Processors/HslProcessor.php:140-184 | A non-negative hue with saturation, lightness and alpha in [0, 1] gives a colour in range |
| HslCodec.AchromaticHsl | src/Processors/HslProcessor.php:140-184 | Zero saturation gives a grey, whatever the hue |
| HslCodec.BuildColor | src/Processors/HslProcessor.php:21-48 | A colour only for a call hsl with 3 or hsla with 4 arguments, always plain |
| HslCodec.BuildFromCall | src/Processors/HslProcessor.php:26-47 | A colour exactly when the name and count are accepted and every argument reads |
| HslCodec.FromValues | src/Processors/HslProcessor.php:26-47 | A colour exactly for hsl/3 and hsla/4 with readable values |
| HslCodec.HslValues | src/Processors/HslProcessor.php:27-35 | hsl(): the hue as it is, saturation and lightness divided by 100, opaque |
| HslCodec.HslaValues | src/Processors/HslProcessor.php:36-45 | hsla(): the alpha too is divided by 100 |
| HslCodec.RaiseHue | src/Processors/HslProcessor.php:103-105 | Adding 360 until the hue is not negative leaves it non-negative |
| HslCodec.LowerHue | src/Processors/HslProcessor.php:106-108 | Subtracting 360 until the hue is at most 360 keeps a non-negative hue non-negative |
| HslCodec.NormalisedHue | src/Processors/HslProcessor.php:103-108 | The hue ends in [0, 360], and a hue already there is kept |
| HslCodec.HslText | src/Processors/HslProcessor.php:102-124 | The text is hsla( for alpha below 1 and hsl( otherwise |
| HslCodec.HslRaw | src/Processors/HslProcessor.php:109-123 | Four values with the alpha, three without |
| HslCodec.Decimals | src/Processors/HslProcessor.php:111-121 | One numeral per value |
| HslCodec.Rounded | src/Processors/HslProcessor.php:111-121 | Each value is rounded to two decimals, within 0.005 |
| HslCodec.FormatHslColor | src/Processors/HslProcessor.php:102-124 | The loops and branches compute HslText |
| HslCodec.Min3 | src/Processors/HslProcessor.php:56 | min() is a lower bound that is one of the three |
| HslCodec.Max3 | src/Processors/HslProcessor.php:57 | max() is an upper bound that is one of the three |
| HslCodec.FormatColorInGamut | src/Processors/HslProcessor.php:50-83 | A colour in range always formats |
| HslCodec.FormatGrey | src/Processors/HslProcessor.php:56-61 | A grey formats as hue 0, saturation 0, its lightness |
| HslCodec.HslOf | src/Processors/HslProcessor.php:50-83 | A grey gets hue 0 and saturation 0 |
| HslCodec.FormatColor | src/Processors/HslProcessor.php:50-83 | formatColor() gives text exactly when the hue, saturation and lightness can be computed |
| HslCodec.HslOfRanges | src/Processors/HslProcessor.php:50-83 | For channels in 0..255, saturation and lightness lie in [0, 1] and the hue in [-60, 300] |
| HslCodec.FormatColorRanges | src/Processors/HslProcessor.php:50-124 | For channels in 0..255, the text is formatHslColor() of those values, and they are written in 0..360 for the hue and 0..100 for saturation and lightness |
| HslCodec.HueSector | src/Processors/HslProcessor.php:70-82 | The hue lies within 60 degrees of red, green (120) or blue (240), whichever channel is largest, with red winning ties and then green |
| HslCodec.FormatRed | src/Processors/HslProcessor.php:50-83 | Red is hue 0, saturation 1, lightness 0.5 |
| HslCodec.FormatBlue | src/Processors/HslProcessor.php:50-83 | Blue is hue 240 |
| HslCodec.FormatLightRed | src/Processors/HslProcessor.php:62-69 | (255, 128, 128) has saturation 127/383 where the standard formula gives 1 |
| HslCodec.SaturationDivisorQuirk | src/Processors/HslProcessor.php:64-69 | For lightness 0.5 and above, the divisor is 2 − range, not the textbook 2 − max − min |
| HslCodec.DecimalReads | src/Processors/HslProcessor.php:111-114 | A value printed to two decimals has no comma or brace and reads back as round(x, 2) |
| HslCodec.DecimalsRead | src/Processors/HslProcessor.php:111-121 | Every printed value reads back as its rounding |
| HslCodec.FormattedReads | src/Processors/HslProcessor.php:21-48 | Reading hsl(…) text built from readable arguments gives the values they read as |
| HslCodec.HslTextReadsBack | src/Processors/HslProcessor.php:102-124 | The formatted text reads back as the values rounded to two decimals |
| HslCodec.OpaqueReadsBack | src/Processors/HslProcessor.php:109-123 | Opaque: the text reads back as the colour of the rounded hue, saturation and lightness |
| HslCodec.TranslucentReadsBack | src/Processors/HslProcessor.php:109-123 | Translucent: the same, and the alpha rounded to two decimals is divided by 100 again |
| HslCodec.GreyExample | tests/HslProcessorTest.php:35 | hsl(0,0,50) is (128, 128, 128) |
| HslCodec.WhiteExample | tests/HslProcessorTest.php:34 | hsl(0,0,100) is white |
| HslCodec.RedConversion | tests/HslProcessorTest.php:37 | Hue 0, full saturation, half lightness is red |
| HslCodec.RedExample | tests/HslProcessorTest.php:37 | hsl(0,100,50) is red |
| HslCodec.GreenConversion | tests/HslProcessorTest.php:39 | Hue 120 at lightness 0.25 is (0, 128, 0) |
| HslCodec.GreenExample | tests/HslProcessorTest.php:39 | hsl(120,100,25) is (0, 128, 0) |
| HslCodec.PurpleConversion | tests/HslProcessorTest.php:42 | Hue 300 at 50%/50% is (191, 64, 191) |
| HslCodec.PurpleExample | tests/HslProcessorTest.php:42 | hsl(300,50,50) is (191, 64, 191) |
| HslCodec.TranslucentRowValues | tests/HslProcessorTest.php:55 | The values 248.3, 60.1, 37.3, 47.1 give (54, 38, 152) at alpha 0.47 |
| HslCodec.TranslucentConversion | tests/HslProcessorTest.php:55 | The conversion behind that row |
| HslCodec.TwoArgumentsRejected | tests/HslProcessorTest.php:64 | hsl with two arguments gives null |
| HslCodec.ThreeArgumentsRejected | tests/HslProcessorTest.php:65 | hsla with three arguments gives null |
| HslCodec.NoCallRejected | tests/HslProcessorTest.php:62 | A string without a call gives null |
| HslCodec.RgbCallRejected | tests/HslProcessorTest.php:63 | An rgb() call gives null |
| Blending.AlphaCompositeBlend | src/Processors/AlphaCompositeBlender.php:19-53 | A blended colour of the pair; below result alpha 0.001, transparent black |
| Blending.ResultAlpha | src/Processors/AlphaCompositeBlender.php:20-21 | An opaque foreground or background gives alpha 1; for alphas in [0, 1] the result is in [0, 1], at least either alpha, and 0 exactly when both are 0 |
| Blending.BlendComponent | src/Processors/AlphaCompositeBlender.php:71-75 | A channel of an opaque foreground is kept, and under a transparent foreground an opaque background's channel is kept |
| Blending.AlphaOverOpaque | src/Processors/AlphaCompositeBlender.php:20-21 | Over a background alpha of at least 1, the composite alpha is at least 1 |
| Blending.CompositeChannels | src/Processors/AlphaCompositeBlender.php:27-75 | Otherwise each channel is the composite of the two, and the alpha is the result alpha |
| Blending.OpaqueForeground | src/Processors/AlphaCompositeBlender.php:19-75 | An opaque foreground blends to itself |
| Blending.TransparentForeground | src/Processors/AlphaCompositeBlender.php:19-75 | A fully transparent foreground over an opaque background blends to the background |
| Blending.OverOpaqueBackground | src/Processors/AlphaCompositeBlender.php:20-21 | Over an opaque background, the blend is opaque |
| Blending.AlphaCompositeResolves | src/Processors/AlphaCompositeBlender.php:20-26 | The blender makes any translucent foreground opaque over an opaque background |
| Blending.ComponentAsMean | src/Processors/AlphaCompositeBlender.php:71-75 | A blended channel is the rounded weighted mean of the two channels |
| Blending.ComponentBetween | src/Processors/AlphaCompositeBlender.php:71-75 | A blended channel lies between the two channels |
| Blending.BlendBetween | src/Processors/AlphaCompositeBlender.php:19-75 | Each channel of the blend lies between the foreground's and the background's |
| Blending.QuarterBlackOverRed | tests/AlphaCompositeBlenderTest.php:25 | Black at 0.25 over red is (191, 0, 0) |
| Blending.OpaqueOverWhite | tests/AlphaCompositeBlenderTest.php:26 | An opaque colour over white is itself |
| Blending.TransparentOverColour | tests/AlphaCompositeBlenderTest.php:27 | A transparent colour over an opaque one is the background |
| Blending.TransparentOverTransparent | src/Processors/AlphaCompositeBlender.php:24-26 | Two transparent colours blend to transparent black |
| Factories.FirstMatch | src/ColorFactory.php:62-69 | Some processor makes the colour found; null exactly when none makes one |
| Factories.FirstMatchIsFirst | src/ColorFactory.php:62-69 | The first processor that makes a colour decides |
| Factories.RegisterKeepsFirst | src/ColorFactory.php:51-69 | A processor registered later only matters when the earlier ones make nothing |
| Factories.EarlierProcessorWins | src/ColorFactory.php:63-67 | Of two processors that both make a colour, the earlier one wins |
| Factories.HexThenRgb | src/ColorFactory.php:63-67 | Hex ahead of rgb: hex colours are read by hex, and the rest by rgb |
| Factories.ColorFactory.constructor | src/ColorFactory.php:34-39 | No processor, and the alpha-composite blender unless one is given |
| Factories.ColorFactory.SetColorBlender | src/ColorFactory.php:44-46 | The new blender replaces the old; the processors stay |
| Factories.ColorFactory.RegisterProcessor | src/ColorFactory.php:51-53 | The processor is appended; the blender stays |
| Factories.ColorFactory.BuildColor | src/ColorFactory.php:62-70 | The loop returns FirstMatch of the registered processors |
| Factories.ColorFactory.BlendColors | src/ColorFactory.php:81-83 | The blend strategy's result for the pair |
| PhpArrays.PutValueAt | src/ColorPalette.php:117 | Writing a key sets its value and leaves every other key's value |
| PhpArrays.Put | src/ColorPalette.php:117 | After $array[k] = v the value under k is v, and the old keys stay first with at most one key added |
| PhpArrays.PutKeys | src/ColorPalette.php:117 | A key already present keeps its place; a new key goes last |
| PhpArrays.PutKeepsPositions | src/ColorPalette.php:117 | Writing never moves an existing key |
| PhpArrays.PutWellFormed | src/ColorPalette.php:117 | After a write, each key is still listed once and in step with the values |
| PhpArrays.PutTwice | src/ColorPalette.php:133-138 | Writing a key twice is writing the second value alone |
| PhpArrays.Values | src/ColorPalette.php:83-84 | foreach visits the values in key order, one per key |
| PhpArrays.Reorder | src/ColorPalette.php:69-70 | uasort keeps every key with its value and lists the same keys in a new order |
| PhpArrays.PutEachAppend | src/ColorPalette.php:131-143 | Writing two lists in turn is writing their concatenation |
| PhpArrays.PutEachOne | src/ColorPalette.php:131-143 | Writing one value is one assignment |
| PhpArrays.PutEachWellFormed | src/ColorPalette.php:131-143 | A loop of writes keeps the array well formed |
| PhpArrays.PutEachKeepsOrder | src/ColorPalette.php:131-143 | Keys already present stay first, in order |
| PhpArrays.PutEachHas | src/ColorPalette.php:131-143 | A key is present afterwards exactly when it was before or is the key of a value written |
| PhpArrays.PutEachValue | src/ColorPalette.php:131-143 | A key's value is its old one or a value written under it |
| PhpArrays.PutEachTwo | src/ColorPalette.php:131-143 | Two values with different keys are listed in write order |
| PhpArrays.PutEachOthers | src/ColorPalette.php:131-143 | Writes under other keys leave a key's value alone |
| PhpArrays.PutEachLast | src/ColorPalette.php:131-143 | The last write under a key wins |
| Palettes.Collect | src/ColorPalette.php:129-145 | The colours read form a well-formed array |
| Palettes.ReadableExactly | src/ColorPalette.php:131-139 | A colour is read exactly when some entry is that colour object or a string read as it |
| Palettes.CollectSound | src/ColorPalette.php:131-139 | Each colour kept sits under its own string and was read from some entry |
| Palettes.CollectComplete | src/ColorPalette.php:131-139 | Every colour read is kept under its string |
| Palettes.DuplicateKeptOnce | src/ColorPalette.php:132-133 | The same colour given twice is kept once |
| Palettes.RejectedExactly | src/ColorPalette.php:140-142 | A string is invalid exactly when it is an entry that no processor reads |
| Palettes.RejectedInOrder | src/ColorPalette.php:131-143 | The invalid strings are recorded in input order |
| Palettes.Rejected | src/ColorPalette.php:140-142 | At most one invalid string per entry; each is read by no processor, and every string entry no processor reads is among them |
| Palettes.Stored | src/ColorPalette.php:103-118 | Only storable pairs are stored, at most one for an opaque background and two for a translucent one. Equal colours give none. An opaque pair is stored as it is. A translucent foreground is blended over the opaque background, and that blend is stored when it differs from the background. A translucent background is tried over white and over black, and an opaque foreground distinct from the background and from both blends gives exactly those two pairs |
| Palettes.Backdrops | src/ColorPalette.php:108-109 | The two backdrops are the opaque white and black the source builds |
| Palettes.Row | src/ColorPalette.php:84-86 | One background's row holds at most two pairs per foreground |
| Palettes.RowStorable | src/ColorPalette.php:84-117 | Every pair of a row passes the storing rules: no pair of equal colours, no translucent colour in it |
| Palettes.Pairs | src/ColorPalette.php:83-87 | Every pair of the nested loops is storable |
| Palettes.OpaqueRow | src/ColorPalette.php:84-117 | For opaque colours, a row holds exactly the pairs of each other colour over that background |
| Palettes.SingleColour | src/ColorPalette.php:104-106 | One colour alone makes no pair |
| Palettes.TwoColours | src/ColorPalette.php:82-118 | Two different opaque colours make the two pairs, in background order |
| Palettes.TwoColourKeys | src/ColorPalette.php:82-89 | The pair keys are listed in that order |
| Palettes.PutPairsKeyed | src/ColorPalette.php:116-117 | Storing storable pairs keeps every pair under its own key |
| Palettes.PairTable | src/ColorPalette.php:82-89 | The pairs form a well-formed array with each pair under its key |
| Palettes.ColorPalette.constructor | src/ColorPalette.php:63-66 | The pairs are PairTable of the colours read, the invalid strings are those rejected, the iterator is at 0, and the invariant holds |
| Palettes.ColorPalette.SortColorArray | src/ColorPalette.php:68-71 | The array is reordered, its keys become the iterator's, and the invariant is kept |
| Palettes.ColorPalette.PairColorArray | src/ColorPalette.php:82-89 | The nested loops store Pairs over the colours, and the key list is refreshed |
| Palettes.ColorPalette.PairRow | src/ColorPalette.php:84-86 | The inner loop stores Row for one background |
| Palettes.ColorPalette.PairNext | src/ColorPalette.php:85 | One step of the inner loop: the table so far grows by the pairs of the next foreground, and nothing else changes |
| Palettes.ColorPalette.PairColors | src/ColorPalette.php:103-118 | The recursion stores exactly Stored for the pair |
| Palettes.ColorPalette.BuildColors | src/ColorPalette.php:129-145 | The loop returns Collect and appends the rejected strings |
| Palettes.ColorPalette.Rewind | src/ColorPalette.php:168-170 | The position goes back to 0; nothing else changes and the palette stays valid |
| Palettes.ColorPalette.Next | src/ColorPalette.php:156-158 | The position advances by one; nothing else changes and the palette stays valid |
| Palettes.ColorPalette.Key | src/ColorPalette.php:164-166 | A key exactly while valid() holds: the key at the current position, with a pair stored under it |
| Palettes.ColorPalette.Current | src/ColorPalette.php:172-174 | A pair exactly while valid() holds: the pair stored under the current key, which is storable and whose own key that is |
| Palettes.ColorPalette.InvalidStrings | src/ColorPalette.php:152-154 | The strings of the entries no processor read, and only those |
| Wcag.Label | src/Reports/Wcag2ComplianceReport.php:79-87 | The column shows "Yes", "Large" or "No" |
| Wcag.CalculateWcagCompliance | src/Reports/Wcag2ComplianceReport.php:79-87 | Yes exactly at or above the any-size threshold; Large exactly below it and at or above the large-text one; No below both |
| Wcag.ColumnValue | src/Reports/Wcag2ComplianceReport.php:55-63 | A rating exactly for level "aa" (thresholds 4.5 and 3) or "aaa" (7 and 4.5); null otherwise |
| Wcag.ColumnHeader | src/Reports/Wcag2ComplianceReport.php:51-53 | The header is the name the column was constructed with |
| Wcag.HeaderIgnoresLevel | src/Reports/Wcag2ComplianceReport.php:46-53 | The header does not depend on the level |
| Wcag.Monotone | src/Reports/Wcag2ComplianceReport.php:79-87 | A higher ratio never rates worse |
| Wcag.StricterThresholds | src/Reports/Wcag2ComplianceReport.php:79-87 | Higher thresholds never rate better |
| Wcag.AaaImpliesAa | src/Reports/Wcag2ComplianceReport.php:55-63 | AAA never rates better than AA; a Yes or Large at AAA is a Yes at AA |
| Wcag.UpperCaseLevelUnknown | src/Reports/Wcag2ComplianceReport.php:56-61 | "AA" and "AAA" are not levels and give null |
| Wcag.Edges | src/Reports/Wcag2ComplianceReport.php:55-87 | The thresholds themselves rate as the better rating |

## Left out

- Luminosity, diffLuminosity and the contrast ratio: these are floating point with `pow`. The WCAG column takes the ratio as a parameter instead.
- The report runner, the other report columns, the command-line formatter and the example script: I/O and presentation, outside the core.
- Floating point: all arithmetic is on exact reals. Values that PHP would render with more than two decimals, -0 and huge magnitudes are not modelled as strings.
- Number arguments: PHP's coercion of a non-numeric string, with its warning and its leading-prefix reading, is not modelled. Such an argument makes the processor return null.
- Native integer range: channels and hex values are unbounded integers. Overflow to float is not modelled.
- The ColorProcessor and ColorBlender interfaces are datatypes that wrap the function each implementation computes. Processors other than the three of the library can be given as such functions.
- Palettes.ColorPalette.constructor requires a blender that makes a translucent foreground opaque over an opaque background (`Resolves`, proved for the alpha-composite blender). With any other blender the source's recursion in pairColors() may not end.
- Palettes.ColorPalette.SortColorArray: the uasort comparator is not modelled. The method takes the key order it produces, any permutation of the keys. Stability and the comparator's own behaviour are not stated.
- Input entries other than strings and Color objects, for example numbers cast to strings, are not modelled.
- Palettes.ColorPalette.Key and Palettes.ColorPalette.Current return None out of range, where PHP gives null with a warning.
- HslCodec.FormatColor returns None where PHP 8 throws DivisionByZeroError (HslProcessor.php lines 65-69). HslCodec.FormatColorInGamut proves that channels in 0..255 never reach it. Its decimal output is stated through HslText.
- PhpNumbers.ParseNumeral reads exponent forms such as "1e2" as None, although PHP counts them as numeric. A non-numeric argument reaches round() in the Color constructor, where PHP 8 reads a numeric prefix with a warning and throws a TypeError otherwise. Here it reads as None and the processor returns null.
- The test suite's HSL rows with decimal hues, such as hsl(61.8,63.8,39.3), are not restated, except one translucent row.
- The switch in columnValue() compares loosely. With a non-string level, such as true, PHP can match "aa"; the level here is a string.
- Palettes.ColorPalette.PairColorArray: the inner foreach is the separate method PairRow, so that each loop is proved on its own.

## Findings

| source | as written | input that shows it | evidently intended | confidence | as-written member | corrected member |
|---|---|---|---|---|---|---|
| src/Processors/HexProcessor.php:38 | The pattern ends in `$` without the D modifier. PCRE then also matches just before a final newline, and the newline is kept as a digit. | "ff\n" has three characters after the match and reads as (255, 255, 0) | Only hex digits are accepted, so the input is null | not executed | HexCodec.BuildColorAsWritten | HexCodec.BuildColor |

The corrected HexCodec.BuildColor is used by the rest of the model. HexCodec.NewlineFinding exhibits the discrepancy. HexCodec.BuildColorOnlyHex proves that the corrected processor accepts only hex digits.

Other quirks of the source are modelled as written, each stated by a lemma:

- the rgba alpha is multiplied by 255 and never divided back (RgbCodec.RgbaAlphaNotScaled);
- the hsla alpha is divided by 100 (HslCodec.HslaValues);
- the saturation divisor is `2 - range` for lightness 0.5 and above (HslCodec.SaturationDivisorQuirk);
- a negative hue is not wrapped when building (HslCodec.NegativeHueNotWrapped);
- the arguments run to the first ")" (CssFunctions.ParseAfterName);
- a colour is never clamped.
