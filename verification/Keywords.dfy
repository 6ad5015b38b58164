/** The keyword sets of similarity.service.js. */
module Keywords {
  import opened Text

  datatype Language = Python | Cpp | Java | JavaScript | C | Go

  const PYTHON_KEYWORDS: set<string> := {
    "False", "None", "True", "and", "as", "assert", "async", "await", "break", "class", "continue",
    "def", "del", "elif", "else", "except", "finally", "for", "from", "global", "if", "import", "in",
    "is", "lambda", "nonlocal", "not", "or", "pass", "raise", "return", "try", "while", "with",
    "yield", "print", "len", "range", "input"
  }

  const CPP_KEYWORDS: set<string> := {
    "alignas", "alignof", "and", "asm", "auto", "bitand", "bitor", "bool", "break", "case", "catch",
    "char", "char8_t", "char16_t", "char32_t", "class", "compl", "concept", "const", "consteval",
    "constexpr", "constinit", "const_cast", "continue", "decltype", "default", "delete", "do",
    "double", "dynamic_cast", "else", "enum", "explicit", "export", "extern", "false", "float",
    "for", "friend", "goto", "if", "inline", "int", "long", "mutable", "namespace", "new",
    "noexcept", "not", "nullptr", "operator", "or", "private", "protected", "public", "register",
    "reinterpret_cast", "requires", "return", "short", "signed", "sizeof", "static",
    "static_assert", "static_cast", "struct", "switch", "template", "this", "thread_local", "throw",
    "true", "try", "typedef", "typeid", "typename", "union", "unsigned", "using", "virtual", "void",
    "volatile", "wchar_t", "while", "xor", "include", "define", "ifndef", "endif", "pragma", "std",
    "cout", "cin", "endl"
  }

  const JAVA_KEYWORDS: set<string> := {
    "abstract", "assert", "boolean", "break", "byte", "case", "catch", "char", "class", "const",
    "continue", "default", "do", "double", "else", "enum", "extends", "final", "finally", "float",
    "for", "goto", "if", "implements", "import", "instanceof", "int", "interface", "long", "native",
    "new", "package", "private", "protected", "public", "return", "short", "static", "strictfp",
    "super", "switch", "synchronized", "this", "throw", "throws", "transient", "try", "void",
    "volatile", "while", "true", "false", "null", "var", "record", "yield", "System", "out",
    "println", "print"
  }

  const JAVASCRIPT_KEYWORDS: set<string> := {
    "break", "case", "catch", "class", "const", "continue", "debugger", "default", "delete", "do",
    "else", "export", "extends", "finally", "for", "function", "if", "import", "in", "instanceof",
    "new", "return", "super", "switch", "this", "throw", "try", "typeof", "var", "void", "while",
    "with", "yield", "let", "static", "async", "await", "true", "false", "null", "undefined",
    "console", "log"
  }

  const GO_KEYWORDS: set<string> := {
    "break", "case", "chan", "const", "continue", "default", "defer", "else", "fallthrough", "for",
    "func", "go", "goto", "if", "import", "interface", "map", "package", "range", "return",
    "select", "struct", "switch", "type", "var", "bool", "byte", "complex64", "complex128", "error",
    "float32", "float64", "int", "int8", "int16", "int32", "int64", "rune", "string", "uint",
    "uint8", "uint16", "uint32", "uint64", "uintptr", "true", "false", "iota", "nil", "append",
    "cap", "close", "copy", "delete", "len", "make", "new", "panic", "print", "println", "recover",
    "fmt", "Println", "Printf", "Scan", "Sprintf"
  }

  /** C shares the C++ set. */
  function KeywordSetFor(language: Language): set<Text> {
    var words :=
      match language
      case Python => PYTHON_KEYWORDS
      case Go => GO_KEYWORDS
      case Java => JAVA_KEYWORDS
      case JavaScript => JAVASCRIPT_KEYWORDS
      case Cpp => CPP_KEYWORDS
      case C => CPP_KEYWORDS;
    set word | word in words :: Units(word)
  }
}
